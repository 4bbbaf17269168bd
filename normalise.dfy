/**
 * Whitespace normalisation of the extracted page text: split into lines,
 * strip every line, drop the lines left empty and join the rest with "\n".
 */
module Normalise {
  import opened Text

  /** `a` is `b` with some elements left out, the rest kept in order. */
  predicate IsSubsequence(a: seq<string>, b: seq<string>)
    decreases |b|
  {
    if a == [] then true
    else if b == [] then false
    else if a[0] == b[0] then IsSubsequence(a[1..], b[1..])
    else IsSubsequence(a, b[1..])
  }

  /** `[line.strip() for line in lines]` */
  function StripLines(lines: seq<string>): seq<string>
  {
    seq(|lines|, i requires 0 <= i < |lines| => Strip(lines[i]))
  }

  /**
   * `[line for line in lines if line]`: exactly the non-empty lines, each as
   * often as in `lines`, in their original order.
   */
  function DropEmpty(lines: seq<string>): (kept: seq<string>)
    ensures [] !in kept
    ensures IsSubsequence(kept, lines)
    ensures forall l :: l != [] ==> multiset(kept)[l] == multiset(lines)[l]
  {
    if lines == [] then []
    else
      assert lines == [lines[0]] + lines[1..];
      var rest := DropEmpty(lines[1..]);
      if lines[0] == [] then
        assert rest != [] ==> rest[0] in rest;
        rest
      else
        assert ([lines[0]] + rest)[1..] == rest;
        [lines[0]] + rest
  }

  /** The lines that survive normalisation, in order. */
  function CleanLines(text: string): seq<string>
  {
    DropEmpty(StripLines(SplitLines(text)))
  }

  /** Every surviving line is non-empty, trimmed and a single line. */
  lemma {:induction false} CleanLinesAreClean(text: string)
    ensures forall l :: l in CleanLines(text) ==>
      l != [] && IsTrimmed(l) && HasNoLineBoundary(l)
  {
    var raw := SplitLines(text);
    var stripped := StripLines(raw);
    forall l | l in CleanLines(text)
      ensures l != [] && IsTrimmed(l) && HasNoLineBoundary(l)
    {
      assert multiset(CleanLines(text))[l] > 0;
      assert l in stripped;
      var i :| 0 <= i < |stripped| && stripped[i] == l;
      assert raw[i] in raw;
      StripNoLineBoundary(raw[i]);
    }
  }

  /**
   * `"\n".join(line for line in lines if line)` over the stripped lines of
   * `text.splitlines()`: a clean text.
   */
  function CleanText(text: string): (cleaned: string)
    ensures IsCleanText(cleaned)
  {
    CleanLinesAreClean(text);
    JoinCleanLines(CleanLines(text));
    Join(CleanLines(text), "\n")
  }

  /** The lines of the result are exactly the non-empty stripped lines of the input. */
  lemma {:induction false} CleanTextLines(text: string)
    ensures SplitLines(CleanText(text)) == DropEmpty(StripLines(SplitLines(text)))
  {
    CleanLinesAreClean(text);
    SplitJoinRoundTrip(CleanLines(text));
  }

  /** A raw line shows up (stripped) in the result exactly when it holds a non-whitespace character. */
  lemma {:induction false} LineKeptIffNotBlank(text: string, i: nat)
    requires i < |SplitLines(text)|
    ensures Strip(SplitLines(text)[i]) in CleanLines(text) <==> !AllSpace(SplitLines(text)[i])
  {
    var line := SplitLines(text)[i];
    var stripped := StripLines(SplitLines(text));
    assert stripped[i] == Strip(line);
    if !AllSpace(line) {
      assert multiset(stripped)[Strip(line)] > 0;
      assert multiset(CleanLines(text))[Strip(line)] > 0;
    }
  }

  /** The fixed points of CleanText are exactly the clean texts. */
  lemma {:induction false} CleanTextFixedPoints(t: string)
    ensures CleanText(t) == t <==> IsCleanText(t)
  {
    if IsCleanText(t) {
      var raw := SplitLines(t);
      CleanTextLinesTrimmed(t);
      CleanTextJoinsBack(t);
      var stripped := StripLines(raw);
      forall i | 0 <= i < |raw| ensures stripped[i] == raw[i] {
        assert raw[i] in raw;
        StripTrimmed(raw[i]);
      }
      assert stripped == raw;
      DropEmptyKeepsNonEmpty(raw);
    }
  }

  /** Normalising normalised text changes nothing. */
  lemma {:induction false} CleanTextIdempotent(text: string)
    ensures CleanText(CleanText(text)) == CleanText(text)
  {
    CleanTextFixedPoints(CleanText(text));
  }

  /** Normalisation adds no character other than the "\n" between lines. */
  lemma {:induction false} CleanTextChars(text: string, c: char)
    requires c in CleanText(text) && c != '\n'
    ensures c in text
  {
    var raw := SplitLines(text);
    var stripped := StripLines(raw);
    JoinChars(CleanLines(text), "\n", c);
    var k :| 0 <= k < |CleanLines(text)| && c in CleanLines(text)[k];
    var l := CleanLines(text)[k];
    assert multiset(CleanLines(text))[l] > 0;
    assert l in stripped;
    var i :| 0 <= i < |stripped| && stripped[i] == l;
    StripChars(raw[i], c);
    SplitLinesChars(text, raw[i], c);
  }

  lemma {:induction false} DropEmptyKeepsNonEmpty(lines: seq<string>)
    requires [] !in lines
    ensures DropEmpty(lines) == lines
    decreases |lines|
  {
    if lines != [] {
      assert lines[0] in lines;
      assert forall l :: l in lines[1..] ==> l in lines;
      DropEmptyKeepsNonEmpty(lines[1..]);
      assert lines == [lines[0]] + lines[1..];
    }
  }
}
