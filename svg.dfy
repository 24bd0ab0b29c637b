/** An SVG document as the inkex/lxml element tree the extensions walk: a table of
    element records keyed by their position in document order. A parent always
    precedes its children, node 0 is the `<svg>` root, and every other element
    names its parent. */
module Svg {
  import opened Wrappers
  import opened Strings
  import Style

  type Node = nat

  const ROOT: Node := 0

  datatype Tag = Root | Defs | Group | Image | Symbol | Use | Text | Tspan | Rect | OtherTag(name: string)

  /** Attribute values. `Num` stands for a number printed with `fmt_f` and `PngUrl` for a
      `data:image/png;base64,...` URL; their character-level text is not modelled. */
  datatype Value = Str(s: string) | Num(r: real) | PngUrl(data: seq<byte>)

  /** One element: its tag, its parent, its raw `style` attribute and its other attributes. */
  datatype Element = Element(tag: Tag, parent: Option<Node>, style: Option<string>, attrs: map<string, Value>)

  datatype Tree = Tree(elems: map<Node, Element>, next: Node)

  predicate WellFormed(t: Tree) {
    && ROOT in t.elems && t.elems[ROOT].parent.None?
    && (forall n | n in t.elems :: n < t.next)
    && (forall n {:trigger t.elems[n]} | n in t.elems && n != ROOT ::
          t.elems[n].parent.Some? && t.elems[n].parent.value in t.elems && t.elems[n].parent.value < n)
  }

  /** `elem.get(name)` for an attribute holding text. */
  function Attr(e: Element, name: string): Option<string> {
    if name in e.attrs && e.attrs[name].Str? then Some(e.attrs[name].s) else None
  }

  function SetAttr(e: Element, name: string, v: Value): Element {
    e.(attrs := e.attrs[name := v])
  }

  predicate HasId(e: Element, id: string) {
    Attr(e, "id") == Some(id)
  }

  /** An Inkscape layer: `svg:g[@inkscape:groupmode='layer']`. */
  predicate IsLayer(e: Element) {
    e.tag == Group && Attr(e, "inkscape:groupmode") == Some("layer")
  }

  /** `elem.style.get("display")`. */
  function Display(e: Element): Option<string> {
    Style.Get(Style.Parsed(e.style), "display")
  }

  /** `elem.style["display"] = "inline" if visible else "none"`. */
  function WithDisplay(e: Element, visible: bool): (r: Element)
    ensures r.tag == e.tag && r.parent == e.parent && r.attrs == e.attrs
  {
    e.(style := Some(Style.SetProperty(e.style, "display", if visible then "inline" else "none")))
  }

  /** After `set_visibility`, the element's `display` is the one it was given. */
  lemma WithDisplayShows(e: Element, visible: bool)
    ensures Display(WithDisplay(e, visible)) == Some(if visible then "inline" else "none")
  {
    Style.SetPropertyEffect(e.style, "display", if visible then "inline" else "none");
  }

  // ---- queries in document order ----

  /** The nodes below key `k` whose element satisfies `p`, in document order. */
  function Select(t: Tree, p: Element -> bool, k: nat): (r: seq<Node>)
    ensures forall i :: 0 <= i < |r| ==> r[i] < k && r[i] in t.elems && p(t.elems[r[i]])
    ensures forall i, j :: 0 <= i < j < |r| ==> r[i] < r[j]
    ensures forall n :: n < k && n in t.elems && p(t.elems[n]) ==> n in r
  {
    if k == 0 then []
    else
      var r := Select(t, p, k - 1);
      if k - 1 in t.elems && p(t.elems[k - 1]) then r + [k - 1] else r
  }

  /** Every node satisfying `p`, in document order: an XPath `//...` query. */
  function All(t: Tree, p: Element -> bool): seq<Node> {
    Select(t, p, t.next)
  }

  lemma AllMembers(t: Tree, p: Element -> bool, n: Node)
    requires WellFormed(t)
    ensures n in All(t, p) <==> n in t.elems && p(t.elems[n])
  {
  }

  /** `//svg:g[@inkscape:groupmode='layer']`. */
  function Layers(t: Tree): seq<Node> {
    All(t, IsLayer)
  }

  /** `svg.getElementById(id)`: the first element in document order carrying the id. */
  function GetElementById(t: Tree, id: string): (r: Option<Node>)
    requires WellFormed(t)
    ensures r.Some? ==> r.value in t.elems && HasId(t.elems[r.value], id)
    ensures r.Some? ==> forall n :: n in t.elems && n < r.value ==> !HasId(t.elems[n], id)
    ensures r.None? <==> forall n :: n in t.elems ==> !HasId(t.elems[n], id)
  {
    var found := All(t, e => HasId(e, id));
    if found == [] then None
    else Some(found[0])
  }

  /** Two trees whose elements agree on `id` resolve every id to the same element. */
  lemma GetElementByIdSame(a: Tree, b: Tree, id: string)
    requires WellFormed(a) && WellFormed(b) && a.elems.Keys == b.elems.Keys
    requires forall n | n in a.elems :: Attr(a.elems[n], "id") == Attr(b.elems[n], "id")
    ensures GetElementById(a, id) == GetElementById(b, id)
  {
    var ra, rb := GetElementById(a, id), GetElementById(b, id);
    if ra.Some? && rb.Some? {
      assert HasId(b.elems[ra.value], id) && HasId(a.elems[rb.value], id);
    }
  }

  // ---- ancestry ----

  /** `a` is `n` or one of the elements reached from `n` by `getparent()`. */
  predicate AncestorOrSelf(t: Tree, a: Node, n: Node)
    requires WellFormed(t) && n in t.elems
    decreases n
  {
    a == n || (n != ROOT && AncestorOrSelf(t, a, t.elems[n].parent.value))
  }

  lemma {:induction false} AncestorsInTree(t: Tree, a: Node, n: Node)
    requires WellFormed(t) && n in t.elems && AncestorOrSelf(t, a, n)
    ensures a in t.elems && a <= n
    decreases n
  {
    if a != n {
      AncestorsInTree(t, a, t.elems[n].parent.value);
    }
  }

  // ---- updates that keep the tree well formed ----

  /** Replace the record of `n` by one with the same tag and parent. */
  function Update(t: Tree, n: Node, e: Element): (r: Tree)
    requires WellFormed(t) && n in t.elems && e.parent == t.elems[n].parent
    ensures WellFormed(r) && r.elems.Keys == t.elems.Keys && r.next == t.next
    ensures r.elems[n] == e && forall m | m in t.elems && m != n :: r.elems[m] == t.elems[m]
  {
    t.(elems := t.elems[n := e])
  }

  /** Two trees that agree on every element are the same tree. */
  lemma SameTree(a: Tree, b: Tree)
    requires a.next == b.next && a.elems.Keys == b.elems.Keys
    requires forall n | n in a.elems :: a.elems[n] == b.elems[n]
    ensures a == b
  {
    assert a.elems == b.elems;
  }

  /** Setting one attribute leaves every other attribute as it was. */
  lemma SetAttrOther(e: Element, name: string, v: Value, other: string)
    requires name != other
    ensures Attr(SetAttr(e, name, v), other) == Attr(e, other)
  {
  }

  /** Setting an element's id keeps it a layer or not a layer. */
  lemma SetIdKeepsIsLayer(e: Element, v: Value)
    ensures IsLayer(SetAttr(e, "id", v)) == IsLayer(e)
  {
    assert |"id"| != |"inkscape:groupmode"|;
    SetAttrOther(e, "id", v, "inkscape:groupmode");
  }

  /** Setting an attribute to the string it already holds changes nothing. */
  lemma SetAttrSame(e: Element, name: string, v: string)
    requires Attr(e, name) == Some(v)
    ensures SetAttr(e, name, Str(v)) == e
  {
    assert e.attrs[name := Str(v)] == e.attrs;
  }

  /** Writing an element back unchanged leaves the tree as it was. */
  lemma UpdateSame(t: Tree, n: Node)
    requires WellFormed(t) && n in t.elems
    ensures Update(t, n, t.elems[n]) == t
  {
    assert t.elems[n := t.elems[n]] == t.elems;
  }

  /** A second update of the same element overrides the first. */
  lemma UpdateTwice(t: Tree, n: Node, e1: Element, e2: Element)
    requires WellFormed(t) && n in t.elems && e1.parent == t.elems[n].parent && e2.parent == e1.parent
    ensures Update(Update(t, n, e1), n, e2).elems == t.elems[n := e2]
  {
    assert t.elems[n := e1][n := e2] == t.elems[n := e2];
  }

  /** `parent.append(e)`: `e` becomes the last child of `parent`. It gets the next node
      number, which is last in document order when `parent` is the root. */
  function Append(t: Tree, parent: Node, e: Element): (r: Tree)
    requires WellFormed(t) && parent in t.elems
    ensures WellFormed(r) && r.elems.Keys == t.elems.Keys + {t.next}
    ensures r.elems[t.next] == e.(parent := Some(parent)) && r.next == t.next + 1
    ensures forall n :: n in t.elems ==> r.elems[n] == t.elems[n]
  {
    Tree(t.elems[t.next := e.(parent := Some(parent))], t.next + 1)
  }

  /** Whether some proper ancestor of `n` satisfies `p`. */
  predicate UnderSome(t: Tree, n: Node, p: Node -> bool)
    requires WellFormed(t) && n in t.elems
    decreases n
  {
    n != ROOT && var q := t.elems[n].parent.value; p(q) || UnderSome(t, q, p)
  }

  /** Parent still present, for every surviving node, after deleting whole subtrees. */
  lemma {:induction false} SurvivorParent(t: Tree, gone: Node -> bool, n: Node)
    requires WellFormed(t) && n in t.elems && n != ROOT && !gone(n) && !UnderSome(t, n, gone)
    ensures var q := t.elems[n].parent.value; !gone(q) && (q == ROOT || !UnderSome(t, q, gone))
  {
  }

  /** Removing every element that satisfies `gone`, each with its whole subtree. */
  function RemoveSubtrees(t: Tree, gone: Node -> bool): (r: Tree)
    requires WellFormed(t) && !gone(ROOT)
    ensures WellFormed(r) && r.next == t.next
    ensures forall n :: n in r.elems <==> n in t.elems && !gone(n) && !UnderSome(t, n, gone)
    ensures forall n :: n in r.elems ==> r.elems[n] == t.elems[n]
  {
    var keep := set n | n in t.elems && !gone(n) && !UnderSome(t, n, gone);
    var r := Tree(map n | n in keep :: t.elems[n], t.next);
    forall n | n in r.elems && n != ROOT
      ensures r.elems[n].parent.Some? && r.elems[n].parent.value in r.elems
    {
      SurvivorParent(t, gone, n);
    }
    r
  }

  /** Membership in `s`, as a predicate on nodes. */
  function In(s: set<Node>): (p: Node -> bool)
    ensures forall n :: p(n) <==> n in s
  {
    n => n in s
  }

  /** A proper ancestor lies in `s + {m}` exactly when one lies in `s` or is `m`. */
  lemma {:induction false} UnderSomeUnion(t: Tree, n: Node, s: set<Node>, m: Node)
    requires WellFormed(t) && n in t.elems
    ensures UnderSome(t, n, In(s + {m})) <==> UnderSome(t, n, In(s)) || UnderSome(t, n, In({m}))
    decreases n
  {
    if n != ROOT {
      UnderSomeUnion(t, t.elems[n].parent.value, s, m);
    }
  }

  /** A survivor of a removal has the same ancestors in the smaller tree. */
  lemma {:induction false} UnderSomeSurvivor(t: Tree, gone: Node -> bool, n: Node, q: Node -> bool)
    requires WellFormed(t) && !gone(ROOT) && n in RemoveSubtrees(t, gone).elems
    ensures UnderSome(RemoveSubtrees(t, gone), n, q) <==> UnderSome(t, n, q)
    decreases n
  {
    if n != ROOT {
      var p := t.elems[n].parent.value;
      SurvivorParent(t, gone, n);
      UnderSomeSurvivor(t, gone, p, q);
    }
  }

  /** Below an element that is removed, or that lies under a removed one, everything is removed. */
  lemma {:induction false} UnderRemoved(t: Tree, s: set<Node>, m: Node, n: Node)
    requires WellFormed(t) && n in t.elems && m in t.elems
    requires UnderSome(t, n, In({m})) && (m in s || UnderSome(t, m, In(s)))
    ensures UnderSome(t, n, In(s))
    decreases n
  {
    var p := t.elems[n].parent.value;
    if p != m {
      UnderRemoved(t, s, m, p);
    }
  }

  /** Removing the subtrees of `s` and then that of `m` removes the subtrees of `s + {m}`;
      when `m` is already gone the second step has nothing to do. */
  lemma {:induction false} UnderNone(t: Tree, n: Node)
    requires WellFormed(t) && n in t.elems
    ensures !UnderSome(t, n, In({}))
    decreases n
  {
    if n != ROOT {
      UnderNone(t, t.elems[n].parent.value);
    }
  }

  /** Removing the subtrees of no node leaves the tree as it is. */
  lemma RemoveNone(t: Tree)
    requires WellFormed(t)
    ensures RemoveSubtrees(t, In({})) == t
  {
    var r := RemoveSubtrees(t, In({}));
    forall n | n in t.elems ensures n in r.elems {
      UnderNone(t, n);
    }
    assert r.elems == t.elems;
  }

  lemma RemoveOneMore(t: Tree, s: set<Node>, m: Node)
    requires WellFormed(t) && ROOT !in s && m != ROOT && m in t.elems
    ensures var r := RemoveSubtrees(t, In(s));
      RemoveSubtrees(t, In(s + {m})) == if m in r.elems then RemoveSubtrees(r, In({m})) else r
  {
    var r := RemoveSubtrees(t, In(s));
    var both := RemoveSubtrees(t, In(s + {m}));
    if m in r.elems {
      var target := RemoveSubtrees(r, In({m}));
      forall n ensures n in both.elems <==> n in target.elems {
        RemoveOneMoreAt(t, s, m, n);
      }
      SameKeysSame(both, target, t);
    } else {
      forall n ensures n in both.elems <==> n in r.elems {
        RemoveOneMoreAt(t, s, m, n);
      }
      SameKeysSame(both, r, t);
    }
  }

  /** Which nodes survive removing `s` and then `m`. */
  lemma RemoveOneMoreAt(t: Tree, s: set<Node>, m: Node, n: Node)
    requires WellFormed(t) && ROOT !in s && m != ROOT && m in t.elems
    ensures var r, both := RemoveSubtrees(t, In(s)), RemoveSubtrees(t, In(s + {m}));
      n in both.elems <==> n in r.elems && (m in r.elems ==> n != m && !UnderSome(r, n, In({m})))
  {
    var r := RemoveSubtrees(t, In(s));
    if n in t.elems {
      UnderSomeUnion(t, n, s, m);
      if n in r.elems {
        UnderSomeSurvivor(t, In(s), n, In({m}));
        if m !in r.elems && UnderSome(t, n, In({m})) {
          UnderRemoved(t, s, m, n);
        }
      }
    }
  }

  /** Two trees cut from the same tree, with the same nodes and the same `next`, are equal. */
  lemma SameKeysSame(a: Tree, b: Tree, t: Tree)
    requires a.next == b.next && forall n :: n in a.elems <==> n in b.elems
    requires forall n :: n in a.elems ==> n in t.elems && a.elems[n] == t.elems[n]
    requires forall n :: n in b.elems ==> n in t.elems && b.elems[n] == t.elems[n]
    ensures a == b
  {
    assert a.elems == b.elems;
  }

  /** The class through which the extensions change a document in place. */
  class Document {
    var tree: Tree

    predicate Valid()
      reads this
    {
      WellFormed(tree)
    }

    constructor(t: Tree)
      requires WellFormed(t)
      ensures Valid() && tree == t
    {
      tree := t;
    }

    /** Replace the record of one element, keeping its place in the tree. */
    method SetElement(n: Node, e: Element)
      requires Valid() && n in tree.elems && e.parent == tree.elems[n].parent
      modifies this
      ensures Valid() && tree == Update(old(tree), n, e)
    {
      tree := Update(tree, n, e);
    }

    /** `parent.append(e)`; the new element's key is returned. */
    method AppendChild(parent: Node, e: Element) returns (n: Node)
      requires Valid() && parent in tree.elems
      modifies this
      ensures Valid() && n == old(tree).next && tree == Append(old(tree), parent, e)
    {
      n := tree.next;
      tree := Append(tree, parent, e);
    }

    /** `elem.getparent().remove(elem)`: the element leaves the tree with its subtree. */
    method Remove(n: Node)
      requires Valid() && n in tree.elems && n != ROOT
      modifies this
      ensures Valid() && tree == RemoveSubtrees(old(tree), In({n}))
    {
      tree := RemoveSubtrees(tree, In({n}));
    }

    /** `elem.set("style", style)`; `None` removes the attribute. */
    method SetStyle(n: Node, style: Option<string>)
      requires Valid() && n in tree.elems
      modifies this
      ensures Valid() && tree == Update(old(tree), n, old(tree).elems[n].(style := style))
    {
      tree := Update(tree, n, tree.elems[n].(style := style));
    }
  }
}
