/** Flattening a tree of renderable nodes into the plain text that the
    highlight component segments (`extract` in `BlurHighlight`). */
module TextFlatten {
  import opened Wrappers

  /** A renderable node, as far as text extraction can tell them apart. */
  datatype Node =
    | Text(s: string)                  // a string node
    | Fragment(children: seq<Node>)    // an array of nodes
    | Element(child: Option<Node>)     // an element; `None` when `props.children` is absent
    | Opaque(truthy: bool)             // numbers, booleans, `null`, `undefined`, other objects

  /** JavaScript truthiness of a `props.children` value: the empty string is
      falsy, arrays and elements are truthy. */
  predicate Truthy(n: Node) {
    match n
    case Text(s) => s != ""
    case Fragment(_) => true
    case Element(_) => true
    case Opaque(t) => t
  }

  /** `extract(node)`: a string yields itself, an array the concatenation of
      its children's results, a node with truthy `props.children` the result
      for those children, anything else the empty string. */
  function Extract(n: Node): string
    decreases n, 1
  {
    match n
    case Text(s) => s
    case Fragment(cs) => ExtractAll(cs)
    case Element(c) => if c.Some? && Truthy(c.value) then Extract(c.value) else ""
    case Opaque(_) => ""
  }

  /** `node.map(extract).join("")`. */
  function ExtractAll(cs: seq<Node>): string
    decreases cs, 0
  {
    if |cs| == 0 then "" else Extract(cs[0]) + ExtractAll(cs[1..])
  }

  /** The component's text source: a string child is used as is, anything
      else goes through `extract`. */
  function TextContent(children: Node): string {
    if children.Text? then children.s else Extract(children)
  }

  // ---------------------------------------------------------------------
  // Reference definition: the text leaves in document order
  // ---------------------------------------------------------------------

  /** The text leaves of a tree, left to right, without the truthiness test. */
  function Leaves(n: Node): seq<string>
    decreases n, 1
  {
    match n
    case Text(s) => [s]
    case Fragment(cs) => LeavesAll(cs)
    case Element(c) => if c.Some? then Leaves(c.value) else []
    case Opaque(_) => []
  }

  function LeavesAll(cs: seq<Node>): seq<string>
    decreases cs, 0
  {
    if |cs| == 0 then [] else Leaves(cs[0]) + LeavesAll(cs[1..])
  }

  /** The strings of a list joined in order. */
  function Join(ss: seq<string>): string {
    if |ss| == 0 then "" else ss[0] + Join(ss[1..])
  }

  lemma {:induction false} JoinAppend(a: seq<string>, b: seq<string>)
    ensures Join(a + b) == Join(a) + Join(b)
  {
    if |a| == 0 {
      assert a + b == b;
    } else {
      assert (a + b)[0] == a[0];
      assert (a + b)[1..] == a[1..] + b;
      JoinAppend(a[1..], b);
    }
  }

  /** The flattened text is the concatenation of the tree's text leaves in
      document order: the truthiness test on `props.children` never changes
      the result, since every falsy node flattens to the empty string. */
  lemma {:induction false} ExtractIsLeaves(n: Node)
    ensures Extract(n) == Join(Leaves(n))
    decreases n, 1
  {
    match n
    case Text(s) =>
      assert Join([s]) == s + Join([]);
    case Fragment(cs) =>
      ExtractAllIsLeaves(cs);
    case Element(c) =>
      if c.Some? {
        ExtractIsLeaves(c.value);
        if !Truthy(c.value) {
          assert Leaves(c.value) == [] || Leaves(c.value) == [""];
          assert Join([""]) == "" + Join([]);
        }
      }
    case Opaque(_) =>
  }

  lemma {:induction false} ExtractAllIsLeaves(cs: seq<Node>)
    ensures ExtractAll(cs) == Join(LeavesAll(cs))
    decreases cs, 0
  {
    if |cs| > 0 {
      ExtractIsLeaves(cs[0]);
      ExtractAllIsLeaves(cs[1..]);
      JoinAppend(Leaves(cs[0]), LeavesAll(cs[1..]));
    }
  }

  /** Flattening an array is order-preserving and compositional: splitting
      the children anywhere splits the text at the matching point. */
  lemma {:induction false} ExtractAllAppend(a: seq<Node>, b: seq<Node>)
    ensures ExtractAll(a + b) == ExtractAll(a) + ExtractAll(b)
  {
    if |a| == 0 {
      assert a + b == b;
    } else {
      assert (a + b)[0] == a[0];
      assert (a + b)[1..] == a[1..] + b;
      ExtractAllAppend(a[1..], b);
    }
  }

  /** The string short-cut in front of `extract` agrees with `extract`. */
  lemma TextContentIsExtract(children: Node)
    ensures TextContent(children) == Join(Leaves(children))
  {
    ExtractIsLeaves(children);
  }
}
