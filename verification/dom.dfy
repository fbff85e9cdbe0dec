/**
 * The slice of the browser DOM, as jQuery exposes it, that the converter
 * reads: a node's `nodeName`, its element children (`.children()`) and its
 * flattened text (`.text()`).
 */
module Dom {

  /** A DOM node: character data, a comment, or an element with its child nodes. */
  datatype Node =
    | Text(data: string)
    | Comment(data: string)
    | Elem(name: string, kids: seq<Node>)

  /**
   * `node.nodeName`: the tag name of an element (upper case for HTML
   * documents, as the tree gives it) and the fixed names of the other kinds.
   */
  function NodeName(n: Node): (r: string)
    ensures n.Elem? ==> r == n.name
    ensures !n.Elem? ==> |r| > 0 && r[0] == '#'
  {
    match n
    case Text(_) => "#text"
    case Comment(_) => "#comment"
    case Elem(name, _) => name
  }

  /** `$(n).text()`: all descendant character data in document order; comments give nothing. */
  function TextContent(n: Node): string
    decreases n
  {
    match n
    case Text(data) => data
    case Comment(_) => ""
    case Elem(_, kids) => TextOfAll(kids)
  }

  /** The text of a sequence of sibling nodes, concatenated in order. */
  function TextOfAll(ns: seq<Node>): string
    decreases ns
  {
    if ns == [] then "" else TextContent(ns[0]) + TextOfAll(ns[1..])
  }

  /** Flattening text distributes over concatenation of sibling lists. */
  lemma {:induction false} TextOfAllAppend(a: seq<Node>, b: seq<Node>)
    ensures TextOfAll(a + b) == TextOfAll(a) + TextOfAll(b)
    decreases |a|
  {
    if a != [] {
      assert (a + b)[1..] == a[1..] + b;
      TextOfAllAppend(a[1..], b);
    } else {
      assert a + b == b;
    }
  }

  /** The text of a node surrounded by siblings sits between theirs. */
  lemma TextOfAllAround(pre: seq<Node>, n: Node, post: seq<Node>)
    ensures TextOfAll(pre + [n] + post) == TextOfAll(pre) + TextContent(n) + TextOfAll(post)
  {
    assert TextOfAll([n]) == TextContent(n) + TextOfAll([]) by {
      assert [n][1..] == [];
    }
    TextOfAllAppend(pre + [n], post);
    TextOfAllAppend(pre, [n]);
  }

  /** An element holding a single text node has exactly that text. */
  lemma TextOfLeaf(name: string, t: string)
    ensures TextContent(Elem(name, [Text(t)])) == t
  {
    var ns := [Text(t)];
    assert ns[1..] == [];
    assert TextOfAll(ns) == t + "";
    assert t + "" == t;
  }

  /** The element nodes of `ns`, in order; text and comment nodes are skipped. */
  function ElementsOf(ns: seq<Node>): (r: seq<Node>)
    ensures |r| <= |ns|
  {
    if ns == [] then []
    else if ns[0].Elem? then [ns[0]] + ElementsOf(ns[1..])
    else ElementsOf(ns[1..])
  }

  /** A node is kept exactly when it is one of the elements of `ns`. */
  lemma {:induction false} ElementsOfMembers(ns: seq<Node>, c: Node)
    ensures c in ElementsOf(ns) <==> c in ns && c.Elem?
    decreases |ns|
  {
    if ns != [] {
      ElementsOfMembers(ns[1..], c);
      assert ns == [ns[0]] + ns[1..];
    }
  }

  /** Keeping only elements commutes with concatenation, so document order is kept. */
  lemma {:induction false} ElementsOfAppend(a: seq<Node>, b: seq<Node>)
    ensures ElementsOf(a + b) == ElementsOf(a) + ElementsOf(b)
    decreases |a|
  {
    if a != [] {
      assert (a + b)[0] == a[0];
      assert (a + b)[1..] == a[1..] + b;
      ElementsOfAppend(a[1..], b);
    } else {
      assert a + b == b;
    }
  }

  /** A text or comment node between siblings is not among the element children. */
  lemma ElementsOfSkips(a: seq<Node>, n: Node, b: seq<Node>)
    requires !n.Elem?
    ensures ElementsOf(a + [n] + b) == ElementsOf(a) + ElementsOf(b)
  {
    assert ElementsOf([n]) == [] by {
      assert [n][1..] == [];
    }
    ElementsOfAppend(a, [n]);
    assert ElementsOf(a + [n]) == ElementsOf(a);
    ElementsOfAppend(a + [n], b);
  }

  /** A list made only of elements is its own element list. */
  lemma {:induction false} ElementsOfAllElements(ns: seq<Node>)
    requires forall i :: 0 <= i < |ns| ==> ns[i].Elem?
    ensures ElementsOf(ns) == ns
    decreases |ns|
  {
    if ns != [] {
      ElementsOfAllElements(ns[1..]);
    }
  }

  /**
   * `$(n).children()`: the direct element children of `n`, in document order;
   * a node that is not an element has none.
   */
  function Children(n: Node): seq<Node>
  {
    match n
    case Elem(_, kids) => ElementsOf(kids)
    case _ => []
  }

  /** The children are exactly the element nodes directly under `n`. */
  lemma ChildrenMembers(n: Node, c: Node)
    ensures c in Children(n) <==> n.Elem? && c in n.kids && c.Elem?
  {
    if n.Elem? {
      ElementsOfMembers(n.kids, c);
    }
  }
}
