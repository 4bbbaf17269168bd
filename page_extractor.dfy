/**
 * The second stage of `get_docs`: the parsed module page loses its script
 * and style elements, its remaining strings are joined with "\n", and the
 * result is normalised line by line.
 */
module PageExtractor {
  import opened Text
  import opened Normalise

  /**
   * One string of the parsed page, in document order, with the names of the
   * elements that enclose it.
   */
  datatype TextNode = TextNode(text: string, ancestors: seq<string>)

  /** The node goes away when its enclosing script or style element is decomposed. */
  predicate InScriptOrStyle(n: TextNode) {
    "script" in n.ancestors || "style" in n.ancestors
  }

  /** The nodes left once every script and style element is gone, in document order. */
  function Visible(nodes: seq<TextNode>): (r: seq<TextNode>)
    ensures |r| <= |nodes|
    ensures forall i :: 0 <= i < |r| ==> r[i] in nodes && !InScriptOrStyle(r[i])
  {
    if nodes == [] then []
    else
      var last := nodes[|nodes| - 1];
      Visible(nodes[..|nodes| - 1]) + if InScriptOrStyle(last) then [] else [last]
  }

  /** Visible keeps every node outside script and style as often as it occurs, and no other node. */
  lemma {:induction false} VisibleCounts(nodes: seq<TextNode>)
    ensures forall n :: multiset(Visible(nodes))[n] == if InScriptOrStyle(n) then 0 else multiset(nodes)[n]
    decreases |nodes|
  {
    if nodes != [] {
      var last := nodes[|nodes| - 1];
      assert nodes == nodes[..|nodes| - 1] + [last];
      VisibleCounts(nodes[..|nodes| - 1]);
    }
  }

  /** Removal keeps document order: what survives of an earlier part comes first. */
  lemma {:induction false} VisibleAppend(a: seq<TextNode>, b: seq<TextNode>)
    ensures Visible(a + b) == Visible(a) + Visible(b)
    decreases |b|
  {
    if b == [] {
      assert a + b == a;
    } else {
      var b' := b[..|b| - 1];
      assert (a + b)[..|a + b| - 1] == a + b';
      assert (a + b)[|a + b| - 1] == b[|b| - 1];
      VisibleAppend(a, b');
    }
  }

  function Texts(nodes: seq<TextNode>): seq<string>
  {
    seq(|nodes|, i requires 0 <= i < |nodes| => nodes[i].text)
  }

  /** What `get_docs` returns for a module page that was fetched successfully. */
  function ModulePageText(strings: seq<TextNode>): string
  {
    CleanText(Join(Texts(Visible(strings)), "\n"))
  }

  lemma {:induction false} VisibleExtend(nodes: seq<TextNode>, k: nat)
    requires k < |nodes|
    ensures Visible(nodes[..k + 1]) ==
      Visible(nodes[..k]) + if InScriptOrStyle(nodes[k]) then [] else [nodes[k]]
  {
    assert nodes[..k + 1][..k] == nodes[..k];
  }

  /**
   * Every character of the module text other than the "\n" between lines
   * comes from a string outside any script or style element; so text found
   * only inside script or style never reaches the output.
   */
  lemma {:induction false} OutputComesFromVisibleText(strings: seq<TextNode>, c: char)
    requires c in ModulePageText(strings) && c != '\n'
    ensures exists n :: n in strings && !InScriptOrStyle(n) && c in n.text
  {
    var visible := Visible(strings);
    var joined := Join(Texts(visible), "\n");
    CleanTextChars(joined, c);
    JoinChars(Texts(visible), "\n", c);
    var k :| 0 <= k < |Texts(visible)| && c in Texts(visible)[k];
    var n := visible[k];
    VisibleCounts(strings);
    assert multiset(visible)[n] > 0;
    assert n in strings && !InScriptOrStyle(n) && c in n.text;
  }

  /**
   * The steps that turn the module page into the reply: parse, decompose
   * script and style, get the text with "\n" between strings, normalise.
   */
  method ExtractModuleText(strings: seq<TextNode>) returns (text: string)
    ensures text == ModulePageText(strings)
    ensures IsCleanText(text)
  {
    var soup := new Soup(strings);
    soup.DecomposeScriptAndStyle();
    var raw := soup.GetText("\n");
    text := CleanText(raw);
  }

  /** The parsed module page (`mod_soup`), whose strings the extractor edits in place. */
  class Soup {
    var strings: seq<TextNode>

    constructor (strings: seq<TextNode>)
      ensures this.strings == strings
    {
      this.strings := strings;
    }

    /** `for tag in mod_soup(["script", "style"]): tag.decompose()` */
    method DecomposeScriptAndStyle()
      modifies this
      ensures strings == Visible(old(strings))
    {
      ghost var original := strings;
      ghost var k := 0;
      var i := 0;
      while i < |strings|
        invariant 0 <= k <= |original|
        invariant 0 <= i <= |strings|
        invariant strings[..i] == Visible(original[..k])
        invariant strings[i..] == original[k..]
        decreases |strings| - i
      {
        ghost var done := strings[..i];
        ghost var todo := strings[i..];
        assert todo[0] == original[k] && todo[1..] == original[k + 1..];
        VisibleExtend(original, k);
        if InScriptOrStyle(strings[i]) {
          strings := strings[..i] + strings[i + 1..];
          assert strings[..i] == done && strings[i..] == todo[1..];
        } else {
          i := i + 1;
          assert strings[..i] == done + [todo[0]] && strings[i..] == todo[1..];
        }
        k := k + 1;
      }
      assert original[..k] == original;
    }

    /** `mod_soup.get_text(separator=separator)`: the strings joined by the separator. */
    function GetText(separator: string): (text: string)
      reads this
      ensures strings == [] ==> text == []
      ensures forall c :: c in text ==>
        c in separator || exists k :: 0 <= k < |strings| && c in strings[k].text
    {
      JoinCharsAll(Texts(strings), separator);
      Join(Texts(strings), separator)
    }
  }
}
