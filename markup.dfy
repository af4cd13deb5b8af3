/** The element tree the inline processors hand back to the Markdown parser. */
module Markup {

  /** A text run, or an element with a tag, attributes (keys unique) and ordered children. */
  datatype Node =
    | Text(text: string)
    | Element(tag: string, attrs: map<string, string>, children: seq<Node>)

  /** What a processor's `handleMatch` returns: the replacement node and the
      start and end of the text it replaces. */
  datatype Replacement = Replacement(node: Node, start: int, end: int)

  /** An element with no attributes whose only child is the text `t`. */
  function SpanOf(t: string): Node {
    Element("span", map[], [Text(t)])
  }

  /** ElementTree's `el.set(key, value)` on a freshly built element. */
  function SetAttr(n: Node, key: string, value: string): (r: Node)
    requires n.Element?
    ensures r.Element? && r.tag == n.tag && r.children == n.children
    ensures key in r.attrs && r.attrs[key] == value
    ensures forall k :: k in n.attrs && k != key ==> k in r.attrs && r.attrs[k] == n.attrs[k]
    ensures r.attrs.Keys == n.attrs.Keys + {key}
  {
    n.(attrs := n.attrs[key := value])
  }
}
