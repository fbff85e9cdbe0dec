/**
 * The `Convert` class of scripts/htmlToMd.js: it turns the direct element
 * children of one root element into Markdown. A level-1 heading becomes an
 * ATX heading line, a paragraph becomes its text between newlines, and every
 * other element (a `SPAN` among them) contributes nothing.
 */
module HtmlToMd {
  import opened Dom
  import JsString

  /**
   * The two characters `Â` (U+00C2) and `¶` (U+00B6): a pilcrow anchor whose
   * UTF-8 bytes were read as Latin-1, as it shows up in scraped headings.
   */
  const Artifact: string := "\U{00C2}\U{00B6}"

  /** `getHtext`: the heading's flattened text with its first artifact cut out. */
  function HeadingText(text: string): (r: string)
    ensures (forall j :: !JsString.OccursAt(text, Artifact, j)) ==> r == text
    ensures forall i :: JsString.IsFirstOccurrence(text, Artifact, i) ==>
              |r| == |text| - 2 && r == text[..i] + text[i + 2..]
  {
    JsString.RemoveFirst(text, Artifact)
  }

  /**
   * `parse`: the Markdown contributed by one child, chosen by its node name.
   * Only a level-1 heading and a paragraph contribute anything.
   */
  function Parse(el: Node): string
  {
    match NodeName(el)
    case "SPAN" => ""
    case "H1" => "# " + HeadingText(TextContent(el)) + "\n"
    case "P" => "\n" + TextContent(el) + "\n"
    case _ => ""
  }

  /** A heading line can be read back: "# ", the cleaned heading text, a newline. */
  lemma ParseHeading(el: Node)
    requires NodeName(el) == "H1"
    ensures var r := Parse(el);
      |r| >= 3 && r[..2] == "# " && r[|r| - 1] == '\n'
      && r[2..|r| - 1] == HeadingText(TextContent(el))
  {
  }

  /** A paragraph block can be read back: its full text between two newlines. */
  lemma ParseParagraph(el: Node)
    requires NodeName(el) == "P"
    ensures var r := Parse(el);
      |r| >= 2 && r[0] == '\n' && r[|r| - 1] == '\n'
      && r[1..|r| - 1] == TextContent(el)
  {
  }

  /**
   * A `SPAN`, or any tag other than `H1` and `P`, contributes nothing whatever
   * its content, and those two always contribute something.
   */
  lemma ParseEmptyIff(el: Node)
    ensures Parse(el) == "" <==> NodeName(el) != "H1" && NodeName(el) != "P"
  {
  }

  /** The concatenation of `render` over `cs`, left to right. */
  function ConcatMap(cs: seq<Node>, render: Node -> string): string
  {
    if cs == [] then "" else ConcatMap(cs[..|cs| - 1], render) + render(cs[|cs| - 1])
  }

  /** Appending one node appends its rendering. */
  lemma ConcatMapSnoc(cs: seq<Node>, c: Node, render: Node -> string)
    ensures ConcatMap(cs + [c], render) == ConcatMap(cs, render) + render(c)
  {
    var s := cs + [c];
    assert s[..|s| - 1] == cs;
  }

  /** Rendering a concatenated list renders the two parts one after the other. */
  lemma {:induction false} ConcatMapAppend(a: seq<Node>, b: seq<Node>, render: Node -> string)
    ensures ConcatMap(a + b, render) == ConcatMap(a, render) + ConcatMap(b, render)
    decreases |b|
  {
    if b == [] {
      assert a + b == a;
    } else {
      var b', last := b[..|b| - 1], b[|b| - 1];
      assert a + b == (a + b') + [last];
      assert b == b' + [last];
      ConcatMapSnoc(a + b', last, render);
      ConcatMapSnoc(b', last, render);
      ConcatMapAppend(a, b', render);
    }
  }

  /** Prepending one node puts its rendering first. */
  lemma ConcatMapCons(c: Node, cs: seq<Node>, render: Node -> string)
    ensures ConcatMap([c] + cs, render) == render(c) + ConcatMap(cs, render)
  {
    ConcatMapAppend([c], cs, render);
    ConcatMapSnoc([], c, render);
    assert [] + [c] == [c];
  }

  /** What `getMarkdown` returns for a list of children: their contributions, in order. */
  function Markdown(cs: seq<Node>): string
  {
    ConcatMap(cs, Parse)
  }

  /** Output order follows child order: converting `a + b` is converting `a`, then `b`. */
  lemma MarkdownAppend(a: seq<Node>, b: seq<Node>)
    ensures Markdown(a + b) == Markdown(a) + Markdown(b)
  {
    ConcatMapAppend(a, b, Parse);
  }

  /** The first child's contribution comes first, followed by the rest. */
  lemma MarkdownCons(c: Node, cs: seq<Node>)
    ensures Markdown([c] + cs) == Parse(c) + Markdown(cs)
  {
    ConcatMapCons(c, cs, Parse);
  }

  /** The output is empty exactly when no child is an `H1` or a `P`. */
  lemma {:induction false} MarkdownEmptyIff(cs: seq<Node>)
    ensures Markdown(cs) == "" <==>
              forall i :: 0 <= i < |cs| ==> NodeName(cs[i]) != "H1" && NodeName(cs[i]) != "P"
    decreases |cs|
  {
    if cs != [] {
      var init := cs[..|cs| - 1];
      MarkdownEmptyIff(init);
      ParseEmptyIff(cs[|cs| - 1]);
      forall i | 0 <= i < |init| ensures init[i] == cs[i] { }
    }
  }

  /**
   * Shallow traversal: a child is seen only through its node name and its
   * flattened text, so its inner structure (a heading nested in a wrapper, a
   * heading inside a paragraph) never yields a contribution of its own.
   */
  lemma {:induction false} MarkdownSeesNameAndText(xs: seq<Node>, ys: seq<Node>)
    requires |xs| == |ys|
    requires forall i :: 0 <= i < |xs| ==>
               NodeName(xs[i]) == NodeName(ys[i]) && TextContent(xs[i]) == TextContent(ys[i])
    ensures Markdown(xs) == Markdown(ys)
    decreases |xs|
  {
    if xs != [] {
      var n := |xs| - 1;
      MarkdownSeesNameAndText(xs[..n], ys[..n]);
      assert Parse(xs[n]) == Parse(ys[n]);
    }
  }

  /**
   * A heading nested one level down inside a paragraph shows up only as plain
   * text in that paragraph: no "# " and no artifact stripping.
   */
  lemma NestedHeadingInParagraph(pre: seq<Node>, heading: seq<Node>, post: seq<Node>)
    ensures Parse(Elem("P", pre + [Elem("H1", heading)] + post))
         == "\n" + (TextOfAll(pre) + TextOfAll(heading) + TextOfAll(post)) + "\n"
  {
    var p := Elem("P", pre + [Elem("H1", heading)] + post);
    TextOfAllAround(pre, Elem("H1", heading), post);
    ParseParagraph(p);
  }

  /**
   * Splitting the root's child list splits the output at the same place;
   * nodes of either part that are not elements add nothing.
   */
  lemma RootSplit(name: string, a: seq<Node>, b: seq<Node>)
    ensures Markdown(Children(Elem(name, a + b)))
         == Markdown(Children(Elem(name, a))) + Markdown(Children(Elem(name, b)))
  {
    ElementsOfAppend(a, b);
    MarkdownAppend(ElementsOf(a), ElementsOf(b));
  }

  /** Text without an `Â` cannot hold the artifact, so a heading made of it is kept whole. */
  lemma HeadingWithoutArtifact(text: string)
    requires '\U{00C2}' !in text
    ensures HeadingText(text) == text
  {
    forall j ensures !JsString.OccursAt(text, Artifact, j) {
      if 0 <= j && j + 2 <= |text| {
        assert text[j..j + 2][0] == text[j];
      }
    }
  }

  /** A heading whose only `Â` is that of a trailing artifact loses exactly that artifact. */
  lemma TrailingArtifactStripped(text: string)
    requires '\U{00C2}' !in text
    ensures HeadingText(text + Artifact) == text
  {
    var t := text + Artifact;
    assert t[|text|..|text| + 2] == Artifact;
    forall j | 0 <= j < |text| ensures !JsString.OccursAt(t, Artifact, j) {
      assert t[j..j + 2][0] == t[j] == text[j];
    }
    assert JsString.IsFirstOccurrence(t, Artifact, |text|);
    assert t[..|text|] == text;
    assert t[|text| + 2..] == [];
  }

  /**
   * Only the first artifact goes: every later one is still in the heading
   * text, two characters further left. No later artifact can overlap the
   * first, because `Â` and `¶` differ.
   */
  lemma LaterArtifactsSurvive(text: string, i: int, j: int)
    requires JsString.IsFirstOccurrence(text, Artifact, i)
    requires i < j && JsString.OccursAt(text, Artifact, j)
    ensures JsString.OccursAt(HeadingText(text), Artifact, j - 2)
  {
    assert text[i..i + 2][1] == text[i + 1] && text[j..j + 2][0] == text[j];
    JsString.LaterOccurrencesSurvive(text, Artifact, i, j);
  }

  /** A heading made of one text node without an `Â` renders that text unchanged. */
  lemma HeadingLeafWithoutArtifact(text: string)
    requires '\U{00C2}' !in text
    ensures Parse(Elem("H1", [Text(text)])) == "# " + text + "\n"
  {
    TextOfLeaf("H1", text);
    HeadingWithoutArtifact(text);
  }

  /** A heading made of one text node that ends in the artifact renders without it. */
  lemma HeadingWithTrailingArtifact(text: string)
    requires '\U{00C2}' !in text
    ensures Parse(Elem("H1", [Text(text + Artifact)])) == "# " + text + "\n"
  {
    TextOfLeaf("H1", text + Artifact);
    TrailingArtifactStripped(text);
  }

  /**
   * A root holding, in order, a heading with a trailing artifact, a stray
   * text node, a paragraph, a span and a second such heading: the text node
   * and the span vanish, both artifacts are stripped, and the pieces follow
   * the children's order.
   */
  lemma EndToEnd(title: string, body: string, ignored: string, second: string)
    requires '\U{00C2}' !in title && '\U{00C2}' !in second
    ensures
      var root := Elem("DIV", [
        Elem("H1", [Text(title + Artifact)]),
        Text("\n"),
        Elem("P", [Text(body)]),
        Elem("SPAN", [Text(ignored)]),
        Elem("H1", [Text(second + Artifact)])]);
      Markdown(Children(root)) == "# " + title + "\n" + ("\n" + body + "\n") + ("# " + second + "\n")
  {
    var h1 := Elem("H1", [Text(title + Artifact)]);
    var p := Elem("P", [Text(body)]);
    var span := Elem("SPAN", [Text(ignored)]);
    var h2 := Elem("H1", [Text(second + Artifact)]);
    var root := Elem("DIV", [h1, Text("\n"), p, span, h2]);
    assert Children(root) == [h1, p, span, h2] by {
      assert root.kids == [h1] + [Text("\n")] + [p, span, h2];
      ElementsOfSkips([h1], Text("\n"), [p, span, h2]);
      ElementsOfAllElements([h1]);
      ElementsOfAllElements([p, span, h2]);
    }
    HeadingWithTrailingArtifact(title);
    HeadingWithTrailingArtifact(second);
    TextOfLeaf("P", body);
    ParseParagraph(p);
    MarkdownOfFour(h1, p, span, h2);
    assert Parse(span) == "";
    assert Parse(h1) + Parse(p) + "" == Parse(h1) + Parse(p);
  }

  /** Four children in a row: their contributions in the same order. */
  lemma MarkdownOfFour(w: Node, x: Node, y: Node, z: Node)
    ensures Markdown([w, x, y, z]) == Parse(w) + Parse(x) + Parse(y) + Parse(z)
  {
    ConcatMapSnoc([], w, Parse);
    ConcatMapSnoc([w], x, Parse);
    ConcatMapSnoc([w, x], y, Parse);
    ConcatMapSnoc([w, x, y], z, Parse);
    assert [] + [w] == [w];
    assert [w] + [x] == [w, x];
    assert [w, x] + [y] == [w, x, y];
    assert [w, x, y] + [z] == [w, x, y, z];
    assert "" + Parse(w) == Parse(w);
  }

  /**
   * Only the two-character artifact is removed: a pilcrow that was decoded
   * correctly (`¶` alone) stays in the heading.
   */
  lemma LonePilcrowKept()
    ensures HeadingText("Overview\U{00B6}") == "Overview\U{00B6}"
  {
    HeadingWithoutArtifact("Overview\U{00B6}");
  }

  /** The converter: a root element, written once when the object is built. */
  class Convert {
    const mainEl: Node

    constructor (el: Node)
      ensures mainEl == el
    {
      mainEl := el;
    }

    /**
     * `getMarkdown`: walks the root's direct element children in order and
     * appends each one's contribution. It writes no field, and `mainEl` is a
     * constant in any case.
     */
    method GetMarkdown() returns (content: string)
      ensures content == Markdown(Children(mainEl))
    {
      var cd := Children(mainEl);
      content := "";
      for index := 0 to |cd|
        invariant content == Markdown(cd[..index])
      {
        content := content + Parse(cd[index]);
        assert cd[..index + 1][..index] == cd[..index];
      }
      assert cd[..|cd|] == cd;
    }
  }

  /** Converting with the same converter twice gives the same string both times: its root is constant. */
  method ConvertTwice(c: Convert) returns (first: string, second: string)
    ensures first == second
  {
    first := c.GetMarkdown();
    second := c.GetMarkdown();
  }
}
