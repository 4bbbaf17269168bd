/**
 * The first stage of `get_docs`: build the Hackage index URL of a package
 * version, pick the anchor whose link text is the requested module name, and
 * turn its href into the URL of the module page.
 */
module IndexResolver {
  import opened Wrappers
  import opened Text

  const PackagePageBase := "https://hackage.haskell.org/package/"

  /** The package index URL, `{base}{package}-{version}`, with nothing encoded. */
  function IndexUrl(package: string, version: string): (url: string)
    ensures |url| == |PackagePageBase| + |package| + 1 + |version|
    ensures url[..|PackagePageBase|] == PackagePageBase
    ensures url[|PackagePageBase|..|PackagePageBase| + |package|] == package
    ensures url[|PackagePageBase| + |package|] == '-'
    ensures url[|PackagePageBase| + |package| + 1..] == version
  {
    PackagePageBase + package + "-" + version
  }

  /** The position of the last `c` in `s`, if any. */
  function LastIndexOf(s: string, c: char): (r: Option<nat>)
    ensures r.None? ==> forall i :: 0 <= i < |s| ==> s[i] != c
    ensures r.Some? ==>
      r.value < |s| && s[r.value] == c && forall i :: r.value < i < |s| ==> s[i] != c
  {
    if s == [] then None
    else if s[|s| - 1] == c then Some(|s| - 1)
    else LastIndexOf(s[..|s| - 1], c)
  }

  /**
   * Reads package and version back from an index URL, splitting at the last
   * "-" (Hackage versions are dotted numbers, package names may hold "-").
   */
  function ParseIndexUrl(url: string): Option<(string, string)>
  {
    if |url| < |PackagePageBase| || url[..|PackagePageBase|] != PackagePageBase then None
    else
      var rest := url[|PackagePageBase|..];
      match LastIndexOf(rest, '-')
      case None => None
      case Some(d) => Some((rest[..d], rest[d + 1..]))
  }

  /** The index URL holds package and version verbatim: both can be read back. */
  lemma {:induction false} IndexUrlRoundTrip(package: string, version: string)
    requires forall i :: 0 <= i < |version| ==> version[i] != '-'
    ensures ParseIndexUrl(IndexUrl(package, version)) == Some((package, version))
  {
    var url := IndexUrl(package, version);
    var rest := package + "-" + version;
    assert url == PackagePageBase + rest;
    assert url[..|PackagePageBase|] == PackagePageBase;
    assert url[|PackagePageBase|..] == rest;
    assert rest[|package|] == '-';
    assert forall i :: |package| < i < |rest| ==> rest[i] == version[i - |package| - 1];
    assert LastIndexOf(rest, '-') == Some(|package|);
    assert rest[..|package|] == package;
    assert rest[|package| + 1..] == version;
  }

  /**
   * An `<a>` element of the index page: its `.string` (None unless the
   * anchor's content is a single string) and its `href` attribute.
   */
  datatype Anchor = Anchor(linkText: Option<string>, href: Option<string>)

  /** The filter `lambda s: s and s.strip() == moduleName`: None and "" are falsy. */
  predicate LinkTextMatches(linkText: Option<string>, moduleName: string)
  {
    linkText.Some? && linkText.value != [] && Strip(linkText.value) == moduleName
  }

  /** `soup.find("a", string=...)`: the first anchor, in document order, whose link text matches. */
  function FindModuleLink(anchors: seq<Anchor>, moduleName: string): (r: Option<nat>)
    ensures r.None? <==> forall i :: 0 <= i < |anchors| ==> !LinkTextMatches(anchors[i].linkText, moduleName)
    ensures r.Some? ==>
      r.value < |anchors| && LinkTextMatches(anchors[r.value].linkText, moduleName) &&
      forall i :: 0 <= i < r.value ==> !LinkTextMatches(anchors[i].linkText, moduleName)
  {
    var hits := seq(|anchors|, i requires 0 <= i < |anchors| => LinkTextMatches(anchors[i].linkText, moduleName));
    FirstHitIsFirstMatch(anchors, moduleName, hits);
    FirstHit(hits, 0)
  }

  /** The first hit among the filter results of the anchors is the first matching anchor. */
  lemma FirstHitIsFirstMatch(anchors: seq<Anchor>, moduleName: string, hits: seq<bool>)
    requires |hits| == |anchors|
    requires forall i :: 0 <= i < |hits| ==> hits[i] == LinkTextMatches(anchors[i].linkText, moduleName)
    ensures FirstHit(hits, 0).None? <==>
      forall i :: 0 <= i < |anchors| ==> !LinkTextMatches(anchors[i].linkText, moduleName)
    ensures FirstHit(hits, 0).Some? ==>
      FirstHit(hits, 0).value < |anchors| &&
      LinkTextMatches(anchors[FirstHit(hits, 0).value].linkText, moduleName) &&
      forall i :: 0 <= i < FirstHit(hits, 0).value ==> !LinkTextMatches(anchors[i].linkText, moduleName)
  {
    var r := FirstHit(hits, 0);
    if r.None? {
      forall i | 0 <= i < |anchors| ensures !LinkTextMatches(anchors[i].linkText, moduleName) {
        assert !hits[i];
      }
    } else {
      forall i | 0 <= i < r.value ensures !LinkTextMatches(anchors[i].linkText, moduleName) {
        assert !hits[i];
      }
      assert hits[r.value];
    }
  }

  /** The first position at or after `from` where `hits` holds, if any. */
  function FirstHit(hits: seq<bool>, from: nat): (r: Option<nat>)
    requires from <= |hits|
    ensures r.None? <==> forall i :: from <= i < |hits| ==> !hits[i]
    ensures r.Some? ==> from <= r.value < |hits| && hits[r.value] && forall i :: from <= i < r.value ==> !hits[i]
    decreases |hits| - from
  {
    if from == |hits| then None
    else if hits[from] then Some(from)
    else FirstHit(hits, from + 1)
  }

  /** A link text with a non-whitespace character besides the module name never matches it. */
  lemma {:induction false} ExtraTextNeverMatches(moduleName: string, before: string, after: string)
    requires !AllSpace(before) || !AllSpace(after)
    ensures !LinkTextMatches(Some(before + moduleName + after), moduleName)
  {
    var linkText := before + moduleName + after;
    StripKeepsNonSpace(linkText);
    NonSpaceAppend(before + moduleName, after);
    NonSpaceAppend(before, moduleName);
    NonSpaceEmpty(before);
    NonSpaceEmpty(after);
    assert |NonSpace(linkText)| > |NonSpace(moduleName)|;
  }

  /** A trimmed module name padded with whitespace always matches. */
  lemma {:induction false} PaddedLinkTextMatches(moduleName: string, before: string, after: string)
    requires AllSpace(before) && AllSpace(after) && IsTrimmed(moduleName)
    requires before + moduleName + after != []
    ensures LinkTextMatches(Some(before + moduleName + after), moduleName)
  {
    StripPadded(before, moduleName, after);
  }

  /** `s` is `name` with whitespace before and after it. */
  predicate IsPaddedName(s: string, name: string)
  {
    exists i ::
      0 <= i <= |s| - |name| && s[i..i + |name|] == name &&
      AllSpace(s[..i]) && AllSpace(s[i + |name|..])
  }

  /** Conversely, a matching link text is the module name with whitespace around it. */
  lemma {:induction false} MatchingLinkTextIsPadded(linkText: string, moduleName: string)
    requires LinkTextMatches(Some(linkText), moduleName)
    ensures IsTrimmed(moduleName)
    ensures IsPaddedName(linkText, moduleName)
  {
    var i, j := StripSplits(linkText);
    PaddingWitness(linkText, i, j);
  }

  lemma PaddingWitness(s: string, i: nat, j: nat)
    requires i <= j <= |s| && AllSpace(s[..i]) && AllSpace(s[j..])
    ensures IsPaddedName(s, s[i..j])
  {
    assert i + |s[i..j]| == j;
  }

  /**
   * The filter in full: None and "" never match, and any other link text
   * matches exactly when it is the trimmed module name with whitespace
   * around it.
   */
  lemma {:induction false} LinkTextMatchesIff(linkText: Option<string>, moduleName: string)
    ensures LinkTextMatches(linkText, moduleName) <==>
      linkText.Some? && linkText.value != [] && IsTrimmed(moduleName) &&
      IsPaddedName(linkText.value, moduleName)
  {
    if LinkTextMatches(linkText, moduleName) {
      MatchingLinkTextIsPadded(linkText.value, moduleName);
    } else if linkText.Some? && linkText.value != [] && IsTrimmed(moduleName) &&
              IsPaddedName(linkText.value, moduleName) {
      PaddedNameMatches(linkText.value, moduleName);
    }
  }

  lemma StripPaddedName(s: string, name: string, i: nat)
    requires i + |name| <= |s| && s[i..i + |name|] == name && IsTrimmed(name)
    requires AllSpace(s[..i]) && AllSpace(s[i + |name|..])
    ensures Strip(s) == name
  {
    StripPaddedAt(s, i, i + |name|);
  }

  lemma PaddedNameMatches(s: string, name: string)
    requires s != [] && IsTrimmed(name) && IsPaddedName(s, name)
    ensures LinkTextMatches(Some(s), name)
  {
    var i :| 0 <= i <= |s| - |name| && s[i..i + |name|] == name &&
      AllSpace(s[..i]) && AllSpace(s[i + |name|..]);
    StripPaddedName(s, name, i);
  }

  /**
   * `urljoin(base, href)`: Python returns `base` itself when the reference is
   * None or empty; any other reference is resolved by `resolve`.
   */
  function UrlJoin(base: string, href: Option<string>, resolve: (string, string) -> string): (url: string)
    ensures href == None || href == Some([]) ==> url == base
    ensures href.Some? && href.value != [] ==> url == resolve(base, href.value)
  {
    if href.None? || href.value == [] then base else resolve(base, href.value)
  }
}
