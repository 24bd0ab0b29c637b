/** Element trees held as values: the symbol libraries that are copied from one document
    into another, and the rat layer that is cloned. Each element has its tag, its
    attributes, its `text` and `tail`, and its children in document order. */
module Xml {
  import opened Wrappers
  import opened Strings

  datatype Tag = SvgRoot | Defs | Symbol | Group | Use | Rect | OtherTag(name: string)

  datatype XNode = XNode(tag: Tag, attrs: map<string, string>, text: Option<string>, tail: Option<string>, children: seq<XNode>)

  /** `elem.get("id")`. */
  function Id(x: XNode): (r: Option<string>)
    ensures r.Some? <==> "id" in x.attrs
    ensures r.Some? ==> r.value == x.attrs["id"]
  {
    if "id" in x.attrs then Some(x.attrs["id"]) else None
  }

  /** Every element strictly below `x` (the xpath `.//` axis), in document order. */
  function Descendants(x: XNode): seq<XNode>
    decreases x, 1
  {
    DescendantsOf(x.children)
  }

  /** Each element of `xs` followed by its descendants, in document order. */
  function DescendantsOf(xs: seq<XNode>): seq<XNode>
    decreases xs, 0
  {
    if xs == [] then [] else [xs[0]] + Descendants(xs[0]) + DescendantsOf(xs[1..])
  }
}
