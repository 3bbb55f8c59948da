/**
 * The shape of the WFS-Transaction request bodies: elements with attributes and
 * children, and text. `Render` writes a tree out the way the source's templates do,
 * without the indentation: text and attribute values are written VERBATIM, so whether
 * a value is escaped is decided where the tree is built, as in the source. The readers
 * at the end (`ChildTags`, `FindChild`, `Content`, `AttributeValue`) look a tree up
 * independently of how it was built; the properties of the request bodies are stated
 * through them.
 */
module XmlTree {
  import opened Wrappers

  datatype Attribute = Attribute(name: string, value: string)

  datatype Node =
    | Element(tag: string, attrs: seq<Attribute>, children: seq<Node>)
    | Text(raw: string)

  /** An element holding one piece of text, `<tag>text</tag>`. */
  function Leaf(tag: string, text: string): Node {
    Element(tag, [], [Text(text)])
  }

  function RenderAttributes(attrs: seq<Attribute>): string {
    if attrs == [] then ""
    else " " + attrs[0].name + "=\"" + attrs[0].value + "\"" + RenderAttributes(attrs[1..])
  }

  function StartTag(tag: string, attrs: seq<Attribute>): string {
    "<" + tag + RenderAttributes(attrs) + ">"
  }

  function EndTag(tag: string): string {
    "</" + tag + ">"
  }

  /** An element without children is written self-closed, `<tag a="v"/>`. */
  function Render(n: Node): string
    decreases n, 1
  {
    match n
    case Text(raw) => raw
    case Element(tag, attrs, children) =>
      if children == [] then "<" + tag + RenderAttributes(attrs) + "/>"
      else StartTag(tag, attrs) + RenderAll(children) + EndTag(tag)
  }

  function RenderAll(ns: seq<Node>): string
    decreases ns, 0
  {
    if ns == [] then "" else Render(ns[0]) + RenderAll(ns[1..])
  }

  lemma {:induction false} RenderAllAppend(a: seq<Node>, b: seq<Node>)
    ensures RenderAll(a + b) == RenderAll(a) + RenderAll(b)
  {
    if a == [] {
      assert a + b == b;
    } else {
      assert (a + b)[0] == a[0];
      assert (a + b)[1..] == a[1..] + b;
      RenderAllAppend(a[1..], b);
    }
  }

  /** The children of an element (text has none). */
  function Children(n: Node): seq<Node> {
    if n.Element? then n.children else []
  }

  /** The tags of the element children, in document order (text is skipped). */
  function ChildTags(ns: seq<Node>): seq<string> {
    if ns == [] then []
    else (if ns[0].Element? then [ns[0].tag] else []) + ChildTags(ns[1..])
  }

  lemma {:induction false} ChildTagsAppend(a: seq<Node>, b: seq<Node>)
    ensures ChildTags(a + b) == ChildTags(a) + ChildTags(b)
  {
    if a == [] {
      assert a + b == b;
    } else {
      assert (a + b)[0] == a[0];
      assert (a + b)[1..] == a[1..] + b;
      ChildTagsAppend(a[1..], b);
    }
  }

  /** The first element child with the given tag. */
  function FindChild(ns: seq<Node>, tag: string): (r: Option<Node>)
    ensures r.Some? ==> r.value in ns && r.value.Element? && r.value.tag == tag
    ensures r.None? <==> tag !in ChildTags(ns)
  {
    if ns == [] then None
    else if ns[0].Element? && ns[0].tag == tag then Some(ns[0])
    else FindChild(ns[1..], tag)
  }

  lemma {:induction false} FindChildAppend(a: seq<Node>, b: seq<Node>, tag: string)
    ensures FindChild(a + b, tag) == if FindChild(a, tag).Some? then FindChild(a, tag) else FindChild(b, tag)
  {
    if a == [] {
      assert a + b == b;
    } else {
      assert (a + b)[0] == a[0];
      assert (a + b)[1..] == a[1..] + b;
      FindChildAppend(a[1..], b, tag);
    }
  }

  /** The serialised content of a node: what stands between an element's tags. */
  function Content(n: Node): string {
    match n
    case Text(raw) => raw
    case Element(_, _, children) => RenderAll(children)
  }

  /** A leaf holds exactly its text. */
  lemma LeafContent(tag: string, text: string)
    ensures Content(Leaf(tag, text)) == text
  {
    assert RenderAll([Text(text)]) == text + RenderAll([]);
  }

  /** The value of the first attribute with the given name. */
  function AttributeValue(attrs: seq<Attribute>, name: string): Option<string> {
    if attrs == [] then None
    else if attrs[0].name == name then Some(attrs[0].value)
    else AttributeValue(attrs[1..], name)
  }
}
