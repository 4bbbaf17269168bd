/**
 * The string operations the documentation extractor relies on, as Python
 * defines them for `str`: `strip`, `splitlines` and `join`.
 */
module Text {

  /** Python's whitespace (`str.isspace`), the characters `str.strip()` removes. */
  predicate IsSpace(c: char) {
    var n := c as int;
    (0x09 <= n <= 0x0D) || (0x1C <= n <= 0x20) || n == 0x85 || n == 0xA0 || n == 0x1680
    || (0x2000 <= n <= 0x200A) || n == 0x2028 || n == 0x2029 || n == 0x202F
    || n == 0x205F || n == 0x3000
  }

  /** The line boundaries of `str.splitlines()` ("\r\n" counts as one, see SplitLines). */
  predicate IsLineBoundary(c: char) {
    var n := c as int;
    (0x0A <= n <= 0x0D) || (0x1C <= n <= 0x1E) || n == 0x85 || n == 0x2028 || n == 0x2029
  }

  predicate AllSpace(s: string) {
    forall i :: 0 <= i < |s| ==> IsSpace(s[i])
  }

  /** Neither end of `s` is whitespace. */
  predicate IsTrimmed(s: string) {
    s == [] || (!IsSpace(s[0]) && !IsSpace(s[|s| - 1]))
  }

  predicate HasNoLineBoundary(s: string) {
    forall i :: 0 <= i < |s| ==> !IsLineBoundary(s[i])
  }

  /**
   * Text made of non-empty, trimmed lines separated by single "\n": the only
   * line boundary is "\n", it never starts or ends the text, and the
   * characters on either side of it are not whitespace.
   */
  predicate IsCleanText(t: string) {
    IsTrimmed(t) &&
    forall i :: 0 <= i < |t| && IsLineBoundary(t[i]) ==>
      t[i] == '\n' && 0 < i < |t| - 1 && !IsSpace(t[i - 1]) && !IsSpace(t[i + 1])
  }

  // ---------------------------------------------------------------- strip

  /** `s.lstrip()`: `s` is some whitespace followed by the result. */
  function StripLeading(s: string): (r: string)
    ensures |r| <= |s| && r == s[|s| - |r|..]
    ensures AllSpace(s[..|s| - |r|])
    ensures r == [] || !IsSpace(r[0])
  {
    if s != [] && IsSpace(s[0]) then
      var r := StripLeading(s[1..]);
      assert s[..|s| - |r|] == [s[0]] + s[1..][..|s| - 1 - |r|];
      r
    else s
  }

  /** `s.rstrip()`: `s` is the result followed by some whitespace. */
  function StripTrailing(s: string): (r: string)
    ensures |r| <= |s| && r == s[..|r|]
    ensures AllSpace(s[|r|..])
    ensures r == [] || !IsSpace(r[|r| - 1])
  {
    if s != [] && IsSpace(s[|s| - 1]) then
      var r := StripTrailing(s[..|s| - 1]);
      assert s[|r|..] == s[..|s| - 1][|r|..] + [s[|s| - 1]];
      r
    else s
  }

  /** `s.strip()`: trimmed, and empty exactly when `s` is all whitespace. */
  function Strip(s: string): (r: string)
    ensures IsTrimmed(r)
    ensures r == [] <==> AllSpace(s)
  {
    var u := StripLeading(s);
    StripLeadingEmpty(s);
    StripTrailingKeepsStart(u);
    StripTrailing(u)
  }

  lemma StripLeadingEmpty(s: string)
    ensures StripLeading(s) == [] <==> AllSpace(s)
  {
    var u := StripLeading(s);
    var n := |s| - |u|;
    if u == [] {
      assert s == s[..n];
    } else {
      assert s[n] == u[0];
    }
  }

  lemma StripTrailingKeepsStart(u: string)
    requires u == [] || !IsSpace(u[0])
    ensures StripTrailing(u) == [] <==> u == []
    ensures StripTrailing(u) != [] ==> StripTrailing(u)[0] == u[0]
  {
    var r := StripTrailing(u);
    assert u[|r|..] == u[|r|..];
  }

  /** Strip keeps one contiguous piece `s[i..j]` of `s` and removes only whitespace around it. */
  lemma {:induction false} StripSplits(s: string) returns (i: nat, j: nat)
    ensures i <= j <= |s| && Strip(s) == s[i..j]
    ensures AllSpace(s[..i]) && AllSpace(s[j..])
  {
    var u := StripLeading(s);
    var r := StripTrailing(u);
    i := |s| - |u|;
    j := i + |r|;
    assert r == s[i..j] by {
      assert u == s[i..];
      assert r == u[..|r|];
    }
    assert s[j..] == u[|r|..];
  }

  /** Strip removes exactly the whitespace around a trimmed middle part. */
  lemma StripPaddedAt(s: string, i: nat, j: nat)
    requires i <= j <= |s| && AllSpace(s[..i]) && AllSpace(s[j..]) && IsTrimmed(s[i..j])
    ensures Strip(s) == s[i..j]
  {
    assert s == s[..i] + s[i..j] + s[j..];
    StripPadded(s[..i], s[i..j], s[j..]);
  }

  lemma {:induction false} StripLeadingPadded(p: string, u: string)
    requires AllSpace(p)
    requires u == [] || !IsSpace(u[0])
    ensures StripLeading(p + u) == u
    decreases |p|
  {
    if p == [] {
      assert p + u == u;
    } else {
      assert (p + u)[0] == p[0];
      assert (p + u)[1..] == p[1..] + u;
      StripLeadingPadded(p[1..], u);
    }
  }

  lemma {:induction false} StripTrailingPadded(u: string, q: string)
    requires AllSpace(q)
    requires u == [] || !IsSpace(u[|u| - 1])
    ensures StripTrailing(u + q) == u
    decreases |q|
  {
    if q == [] {
      assert u + q == u;
    } else {
      var q' := q[..|q| - 1];
      assert (u + q)[|u + q| - 1] == q[|q| - 1];
      assert (u + q)[..|u + q| - 1] == u + q';
      StripTrailingPadded(u, q');
    }
  }

  /** Whitespace around a trimmed string is exactly what Strip removes. */
  lemma {:induction false} StripPadded(p: string, t: string, q: string)
    requires AllSpace(p) && AllSpace(q) && IsTrimmed(t)
    ensures Strip(p + t + q) == t
  {
    if t == [] {
      assert p + t + q == (p + q) + [];
      StripLeadingPadded(p + q, []);
    } else {
      assert p + t + q == p + (t + q);
      assert (t + q)[0] == t[0];
      StripLeadingPadded(p, t + q);
      StripTrailingPadded(t, q);
    }
  }

  /** Stripping a trimmed string changes nothing; in particular Strip is idempotent. */
  lemma {:induction false} StripTrimmed(t: string)
    requires IsTrimmed(t)
    ensures Strip(t) == t
  {
    assert [] + t + [] == t;
    StripPadded([], t, []);
  }

  lemma {:induction false} StripChars(s: string, c: char)
    requires c in Strip(s)
    ensures c in s
  {
    var i, j := StripSplits(s);
    var k :| 0 <= k < |Strip(s)| && Strip(s)[k] == c;
    assert s[i + k] == c;
  }

  lemma {:induction false} StripNoLineBoundary(s: string)
    requires HasNoLineBoundary(s)
    ensures HasNoLineBoundary(Strip(s))
  {
    var i, j := StripSplits(s);
  }

  // ------------------------------------------------ non-space characters

  /** The non-whitespace characters of `s`, in order. */
  function NonSpace(s: string): (r: string)
    ensures |r| <= |s|
  {
    if s == [] then [] else (if IsSpace(s[0]) then [] else [s[0]]) + NonSpace(s[1..])
  }

  lemma {:induction false} NonSpaceAppend(a: string, b: string)
    ensures NonSpace(a + b) == NonSpace(a) + NonSpace(b)
    decreases |a|
  {
    if a == [] {
      assert a + b == b;
    } else {
      assert (a + b)[0] == a[0];
      assert (a + b)[1..] == a[1..] + b;
      NonSpaceAppend(a[1..], b);
    }
  }

  lemma {:induction false} NonSpaceEmpty(s: string)
    ensures NonSpace(s) == [] <==> AllSpace(s)
    decreases |s|
  {
    if s != [] {
      NonSpaceEmpty(s[1..]);
      assert AllSpace(s) <==> IsSpace(s[0]) && AllSpace(s[1..]);
    }
  }

  /** Dropping whitespace from both ends keeps the non-whitespace characters. */
  lemma {:induction false} NonSpaceOfMiddle(s: string, i: nat, j: nat)
    requires i <= j <= |s| && AllSpace(s[..i]) && AllSpace(s[j..])
    ensures NonSpace(s) == NonSpace(s[i..j])
  {
    var front, middle, back := s[..i], s[i..j], s[j..];
    assert s == front + (middle + back);
    NonSpaceEmpty(front);
    NonSpaceEmpty(back);
    NonSpaceAppend(middle, back);
    NonSpaceAppend(front, middle + back);
  }

  /** Strip removes whitespace only: every other character survives, in order. */
  lemma {:induction false} StripKeepsNonSpace(s: string)
    ensures NonSpace(Strip(s)) == NonSpace(s)
  {
    var i, j := StripSplits(s);
    NonSpaceOfMiddle(s, i, j);
  }

  // ----------------------------------------------------------------- join

  /** The total length of `parts`. */
  function TotalLength(parts: seq<string>): nat
  {
    if parts == [] then 0 else |parts[0]| + TotalLength(parts[1..])
  }

  /**
   * `sep.join(parts)`: the parts in order with one separator between each
   * two neighbours, and nothing else.
   */
  function Join(parts: seq<string>, sep: string): string
  {
    if |parts| == 0 then []
    else if |parts| == 1 then parts[0]
    else parts[0] + sep + Join(parts[1..], sep)
  }

  /** Every character of a joined string comes from the separator or from one of the parts. */
  lemma {:induction false} JoinChars(parts: seq<string>, sep: string, c: char)
    requires c in Join(parts, sep)
    ensures c in sep || exists k :: 0 <= k < |parts| && c in parts[k]
    decreases |parts|
  {
    if |parts| >= 2 && c !in parts[0] && c !in sep {
      JoinChars(parts[1..], sep, c);
      var k :| 0 <= k < |parts| - 1 && c in parts[1..][k];
      assert c in parts[k + 1];
    }
  }

  /** A join is as long as its parts together with one separator between each two of them. */
  lemma {:induction false} JoinLength(parts: seq<string>, sep: string)
    requires parts != []
    ensures |Join(parts, sep)| == TotalLength(parts) + (|parts| - 1) * |sep|
    decreases |parts|
  {
    if |parts| >= 2 {
      JoinLength(parts[1..], sep);
    }
  }

  /** Every character of a joined string, all at once. */
  lemma JoinCharsAll(parts: seq<string>, sep: string)
    ensures forall c :: c in Join(parts, sep) ==>
      c in sep || exists k :: 0 <= k < |parts| && c in parts[k]
  {
    forall c | c in Join(parts, sep)
      ensures c in sep || exists k :: 0 <= k < |parts| && c in parts[k]
    {
      JoinChars(parts, sep, c);
    }
  }

  // ----------------------------------------------------------- splitlines

  /** The index of the first line boundary of `s`, or `|s|` when there is none. */
  function LineEnd(s: string): (k: nat)
    ensures k <= |s|
    ensures k < |s| ==> IsLineBoundary(s[k])
    ensures forall i :: 0 <= i < k ==> !IsLineBoundary(s[i])
  {
    if s == [] || IsLineBoundary(s[0]) then 0 else 1 + LineEnd(s[1..])
  }

  /**
   * `s.splitlines()`: the pieces between line boundaries, where "\r\n" is a
   * single boundary and a boundary at the very end does not open a new line.
   */
  function SplitLines(s: string): (lines: seq<string>)
    ensures forall l :: l in lines ==> HasNoLineBoundary(l)
    ensures lines == [] <==> s == []
    decreases |s|
  {
    if s == [] then []
    else
      var k := LineEnd(s);
      if k == |s| then [s]
      else
        var next := if s[k] == '\r' && k + 1 < |s| && s[k + 1] == '\n' then k + 2 else k + 1;
        [s[..k]] + SplitLines(s[next..])
  }

  /** Every character of every line is a character of the split text. */
  lemma {:induction false} SplitLinesChars(s: string, l: string, c: char)
    requires l in SplitLines(s) && c in l
    ensures c in s
    decreases |s|
  {
    var k := LineEnd(s);
    if k < |s| {
      var next := if s[k] == '\r' && k + 1 < |s| && s[k + 1] == '\n' then k + 2 else k + 1;
      assert SplitLines(s) == [s[..k]] + SplitLines(s[next..]);
      if l == s[..k] {
        InPrefix(s, k, c);
      } else {
        SplitLinesChars(s[next..], l, c);
        InSuffix(s, next, c);
      }
    }
  }

  lemma InPrefix(s: string, k: nat, c: char)
    requires k <= |s| && c in s[..k]
    ensures c in s
  {
    var i :| 0 <= i < k && s[..k][i] == c;
    assert s[i] == c;
  }

  lemma InSuffix(s: string, k: nat, c: char)
    requires k <= |s| && c in s[k..]
    ensures c in s
  {
    var i :| 0 <= i < |s| - k && s[k..][i] == c;
    assert s[k + i] == c;
  }

  /** Joining non-empty lines with "\n" and splitting again gives the lines back. */
  lemma {:induction false} SplitJoinRoundTrip(lines: seq<string>)
    requires forall l :: l in lines ==> l != [] && HasNoLineBoundary(l)
    ensures SplitLines(Join(lines, "\n")) == lines
    decreases |lines|
  {
    if |lines| == 1 {
      assert lines[0] in lines;
    } else if |lines| >= 2 {
      var l := lines[0];
      assert l in lines;
      var rest := Join(lines[1..], "\n");
      var s := l + "\n" + rest;
      assert s == Join(lines, "\n");
      assert forall i :: 0 <= i < |l| ==> s[i] == l[i];
      assert s[|l|] == '\n';
      assert LineEnd(s) == |l|;
      assert s[..|l|] == l;
      assert s[|l| + 1..] == rest;
      forall m | m in lines[1..] ensures m != [] && HasNoLineBoundary(m) {
        assert m in lines;
      }
      SplitJoinRoundTrip(lines[1..]);
      assert lines == [l] + lines[1..];
    }
  }

  /** Non-empty, trimmed, single lines joined with "\n" make a clean text. */
  lemma {:induction false} JoinCleanLines(lines: seq<string>)
    requires forall l :: l in lines ==> l != [] && IsTrimmed(l) && HasNoLineBoundary(l)
    ensures IsCleanText(Join(lines, "\n"))
    ensures lines != [] ==> Join(lines, "\n") != []
    decreases |lines|
  {
    if |lines| == 1 {
      assert lines[0] in lines;
    } else if |lines| >= 2 {
      assert lines[0] in lines;
      forall m | m in lines[1..] ensures m != [] && IsTrimmed(m) && HasNoLineBoundary(m) {
        assert m in lines;
      }
      JoinCleanLines(lines[1..]);
      JoinCons(lines[0], lines[1..], "\n");
      assert [lines[0]] + lines[1..] == lines;
      JoinCleanPair(lines[0], Join(lines[1..], "\n"));
    }
  }

  /** A clean single line, "\n" and a non-empty clean text make a clean text. */
  lemma JoinCleanPair(l: string, rest: string)
    requires l != [] && IsTrimmed(l) && HasNoLineBoundary(l)
    requires rest != [] && IsCleanText(rest)
    ensures IsCleanText(l + "\n" + rest)
  {
    var t := l + "\n" + rest;
    assert forall i :: 0 <= i < |l| ==> t[i] == l[i];
    assert t[|l|] == '\n';
    assert forall i :: |l| < i < |t| ==> t[i] == rest[i - |l| - 1];
    assert t[|t| - 1] == rest[|rest| - 1];
  }

  /** What follows a line break of a clean text is clean too. */
  lemma {:induction false} CleanTextAfterBreak(t: string, k: nat)
    requires IsCleanText(t) && 0 < k < |t| - 1 && t[k] == '\n'
    ensures IsCleanText(t[k + 1..])
  {
    var rest := t[k + 1..];
    assert rest[0] == t[k + 1];
    assert rest[|rest| - 1] == t[|t| - 1];
    forall i | 0 <= i < |rest| && IsLineBoundary(rest[i])
      ensures rest[i] == '\n' && 0 < i < |rest| - 1 && !IsSpace(rest[i - 1]) && !IsSpace(rest[i + 1])
    {
      assert rest[i] == t[k + 1 + i];
    }
  }

  /** The first line of a clean text is non-empty and trimmed, and a "\n" that ends it is not the last character. */
  lemma {:induction false} CleanTextFirstLine(t: string)
    requires IsCleanText(t) && t != []
    ensures var k := LineEnd(t);
      0 < k && IsTrimmed(t[..k]) && (k < |t| ==> t[k] == '\n' && k < |t| - 1)
  {
    var k := LineEnd(t);
    assert !IsLineBoundary(t[0]);
    if k < |t| {
      assert !IsSpace(t[k - 1]);
    }
  }

  /** Splitting at a "\n": the first line, then the lines of the rest. */
  lemma {:induction false} SplitLinesAtNewline(s: string)
    requires LineEnd(s) < |s| && s[LineEnd(s)] == '\n'
    ensures SplitLines(s) == [s[..LineEnd(s)]] + SplitLines(s[LineEnd(s) + 1..])
  {
  }

  /** The lines of a clean text are non-empty and trimmed. */
  lemma {:induction false} CleanTextLinesTrimmed(t: string)
    requires IsCleanText(t)
    ensures forall l :: l in SplitLines(t) ==> l != [] && IsTrimmed(l)
    decreases |t|
  {
    if t != [] {
      var k := LineEnd(t);
      CleanTextFirstLine(t);
      if k < |t| {
        var rest := t[k + 1..];
        assert IsCleanText(rest) by {
          CleanTextAfterBreak(t, k);
        }
        CleanTextLinesTrimmed(rest);
        SplitLinesAtNewline(t);
      }
    }
  }

  lemma {:induction false} JoinCons(x: string, rest: seq<string>, sep: string)
    requires rest != []
    ensures Join([x] + rest, sep) == x + sep + Join(rest, sep)
  {
    assert ([x] + rest)[1..] == rest;
  }

  /** Every line boundary of `t` is "\n", and `t` does not end with one. */
  predicate NewlineSeparated(t: string)
  {
    (forall i :: 0 <= i < |t| && IsLineBoundary(t[i]) ==> t[i] == '\n') &&
    (t == [] || !IsLineBoundary(t[|t| - 1]))
  }

  /** A newline-separated text that breaks at all breaks at a "\n" followed by more text. */
  lemma NewlineSeparatedBreak(t: string)
    requires NewlineSeparated(t) && LineEnd(t) < |t|
    ensures LineEnd(t) < |t| - 1 && t[LineEnd(t)] == '\n'
  {
  }

  /** What follows the first "\n" of a newline-separated text is newline-separated. */
  lemma NewlineSeparatedRest(t: string, k: nat)
    requires NewlineSeparated(t) && k < |t|
    ensures NewlineSeparated(t[k + 1..])
  {
    var rest := t[k + 1..];
    forall i | 0 <= i < |rest| ensures rest[i] == t[k + 1 + i] {
    }
  }

  /** A text is its part before `k`, its character at `k` and its part after `k`. */
  lemma SplitAt(t: string, k: nat)
    requires k < |t|
    ensures t == t[..k] + [t[k]] + t[k + 1..]
  {
  }

  /** The join of the lines of a text that breaks at a "\n" starts with its first line and that "\n". */
  lemma JoinSplitLinesStep(t: string)
    requires LineEnd(t) < |t| - 1 && t[LineEnd(t)] == '\n'
    ensures Join(SplitLines(t), "\n") ==
      t[..LineEnd(t)] + "\n" + Join(SplitLines(t[LineEnd(t) + 1..]), "\n")
  {
    var k := LineEnd(t);
    SplitLinesAtNewline(t);
    assert SplitLines(t[k + 1..]) != [];
    JoinCons(t[..k], SplitLines(t[k + 1..]), "\n");
  }

  /**
   * Text whose only line boundary is "\n" and which does not end with one is
   * the "\n"-join of its lines.
   */
  lemma {:induction false} JoinSplitLines(t: string)
    requires NewlineSeparated(t)
    ensures Join(SplitLines(t), "\n") == t
    decreases |t|
  {
    var k := LineEnd(t);
    if k < |t| {
      NewlineSeparatedBreak(t);
      NewlineSeparatedRest(t, k);
      JoinSplitLines(t[k + 1..]);
      JoinSplitLinesStep(t);
      SplitAt(t, k);
    }
  }

  /** A clean text is the "\n"-join of its lines. */
  lemma {:induction false} CleanTextJoinsBack(t: string)
    requires IsCleanText(t)
    ensures Join(SplitLines(t), "\n") == t
  {
    JoinSplitLines(t);
  }
}
