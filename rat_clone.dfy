/** Starting a new blind: the rat layer is copied without any `id` attributes, the copy
    goes first among the layers of the blind and takes the next blind name, and the
    original is hidden and locked. Elements are held as value trees, and an element
    inside the rat layer is named by its path of child positions from the layer. */
module RatClone {
  import opened Wrappers
  import opened Xml
  import Style
  import RatLayerName

  type Path = seq<nat>

  const ID := "id"
  const LABEL := "inkscape:label"
  const GROUPMODE := "inkscape:groupmode"
  const INSENSITIVE := "sodipodi:insensitive"
  const STYLE := "style"

  /** `clone(elem)`: every attribute but `id`, the text, the tail and the cloned children. */
  function Clone(x: XNode): XNode {
    XNode(x.tag, x.attrs - {ID}, x.text, x.tail,
          seq(|x.children|, i requires 0 <= i < |x.children| => Clone(x.children[i])))
  }

  /** No element of the tree carries an `id`. */
  predicate NoIds(x: XNode) {
    ID !in x.attrs && forall i | 0 <= i < |x.children| :: NoIds(x.children[i])
  }

  /** `p` leads from `x` to one of its elements. */
  predicate ValidPath(x: XNode, p: Path)
    decreases |p|
  {
    p == [] || (p[0] < |x.children| && ValidPath(x.children[p[0]], p[1..]))
  }

  /** The element of `x` that `p` leads to. */
  function At(x: XNode, p: Path): XNode
    requires ValidPath(x, p)
    decreases |p|
  {
    if p == [] then x else At(x.children[p[0]], p[1..])
  }

  /** A copy carries no `id` anywhere. */
  lemma {:induction false} CloneNoIds(x: XNode)
    ensures NoIds(Clone(x))
  {
    forall i | 0 <= i < |x.children|
      ensures NoIds(Clone(x).children[i])
    {
      CloneNoIds(x.children[i]);
    }
  }

  /** Cloning changes a tree exactly when some element of it has an `id`; so cloning a
      clone gives the clone back. */
  lemma {:induction false} CloneFixed(x: XNode)
    ensures Clone(x) == x <==> NoIds(x)
  {
    if NoIds(x) {
      forall i | 0 <= i < |x.children|
        ensures Clone(x.children[i]) == x.children[i]
      {
        CloneFixed(x.children[i]);
      }
      assert Clone(x).children == x.children;
      assert x.attrs - {ID} == x.attrs;
    }
    if Clone(x) == x {
      assert ID !in x.attrs by {
        assert ID !in Clone(x).attrs;
      }
      forall i | 0 <= i < |x.children|
        ensures NoIds(x.children[i])
      {
        assert Clone(x).children[i] == x.children[i];
        CloneFixed(x.children[i]);
      }
    }
  }

  lemma CloneIdempotent(x: XNode)
    ensures Clone(Clone(x)) == Clone(x)
  {
    CloneNoIds(x);
    CloneFixed(Clone(x));
  }

  /** The copy has the shape of the original, and each of its elements is the copy of the
      element at the same place: same tag, text and tail, the attributes less `id`. */
  lemma {:induction false} CloneAt(x: XNode, p: Path)
    ensures ValidPath(Clone(x), p) <==> ValidPath(x, p)
    ensures ValidPath(x, p) ==> At(Clone(x), p) == Clone(At(x, p))
    ensures ValidPath(x, p) ==> var c := At(Clone(x), p); var e := At(x, p);
      c.tag == e.tag && c.text == e.text && c.tail == e.tail && c.attrs == e.attrs - {ID}
        && |c.children| == |e.children|
    decreases |p|
  {
    if p != [] && p[0] < |x.children| {
      CloneAt(x.children[p[0]], p[1..]);
    }
  }

  /** The paths of `selected` that lie at `at` or below it and lead to an element of `x`,
      where `x` sits at `at`. */
  function Below(x: XNode, at: Path, selected: set<Path>): set<Path> {
    set p | p in selected && |at| <= |p| && p[..|at|] == at && ValidPath(x, p[|at|..])
  }

  /** Going down one level: below the `i`-th child are the paths below `x` whose next step is `i`. */
  lemma BelowChild(x: XNode, at: Path, selected: set<Path>, i: nat)
    requires i < |x.children|
    ensures Below(x.children[i], at + [i], selected)
         == set p | p in Below(x, at, selected) && |at| < |p| && p[|at|] == i
  {
    var l := Below(x.children[i], at + [i], selected);
    var r := set p | p in Below(x, at, selected) && |at| < |p| && p[|at|] == i;
    forall p | p in l
      ensures p in r
    {
      assert p[..|at|] == p[..|at| + 1][..|at|];
      assert p[|at|..][1..] == p[|at| + 1..];
    }
    forall p | p in r
      ensures p in l
    {
      assert p[..|at| + 1] == p[..|at|] + [p[|at|]];
      assert p[|at|..][1..] == p[|at| + 1..];
    }
  }

  /** `clone` with the `cloned_selected` set it fills in: the copy of `x`, which sits at
      `at` in the layer, and the places of the copies of selected elements. */
  method CloneElement(x: XNode, at: Path, selected: set<Path>) returns (copy: XNode, found: set<Path>)
    ensures copy == Clone(x)
    ensures found == Below(x, at, selected)
    decreases x
  {
    var children: seq<XNode> := [];
    found := {};
    for i := 0 to |x.children|
      invariant |children| == i
      invariant forall j | 0 <= j < i :: children[j] == Clone(x.children[j])
      invariant found == set p | p in Below(x, at, selected) && |at| < |p| && p[|at|] < i
    {
      var c, f := CloneElement(x.children[i], at + [i], selected);
      BelowChild(x, at, selected, i);
      children := children + [c];
      found := found + f;
    }
    copy := XNode(x.tag, x.attrs - {ID}, x.text, x.tail, children);
    assert copy.children == Clone(x).children;
    if at in selected {
      found := found + {at};
    }
    forall p | p in Below(x, at, selected)
      ensures p in found
    {
      if |p| == |at| {
        assert p == p[..|at|];
      } else {
        assert p[|at|..][0] == p[|at|];
      }
    }
  }

  /** `_clone_layer(layer, selected)`: the copy, and the places in it of the copies of the
      selected elements, which are the selected places inside the layer. */
  method CloneLayer(layer: XNode, selected: set<Path>) returns (copy: XNode, clones: set<Path>)
    ensures copy == Clone(layer)
    ensures clones == set p | p in selected && ValidPath(layer, p)
  {
    copy, clones := CloneElement(layer, [], selected);
    assert forall p: Path :: p[..0] == [] && p[0..] == p;
  }

  // ---- the new blind ----

  /** `./svg:g[@inkscape:groupmode='layer']/@inkscape:label`: the labels of the child layers. */
  function ChildLabels(children: seq<XNode>): (r: seq<string>)
    ensures |r| <= |children|
  {
    if children == [] then []
    else
      var c := children[0];
      var here := if c.tag == Group && GROUPMODE in c.attrs && c.attrs[GROUPMODE] == "layer" && LABEL in c.attrs
                  then [c.attrs[LABEL]] else [];
      here + ChildLabels(children[1..])
  }

  /** The stored `style` attribute of an element, if any. */
  function StyleOf(x: XNode): Option<string> {
    if STYLE in x.attrs then Some(x.attrs[STYLE]) else None
  }

  /** `rat_layer.style["display"] = "none"` and `rat_layer.set_sensitive(False)`. */
  function HiddenLocked(x: XNode): XNode {
    x.(attrs := x.attrs[STYLE := Style.SetProperty(StyleOf(x), "display", "none")][INSENSITIVE := "true"])
  }

  /** The clone with its new label. */
  function Labelled(x: XNode, name: string): XNode {
    x.(attrs := x.attrs[LABEL := name])
  }

  /** The layer that holds the rat layer among its children. */
  class BlindParent {
    var children: seq<XNode>

    constructor(children: seq<XNode>)
      ensures this.children == children
    {
      this.children := children;
    }

    /** `parent_layer.append(layer)`: a new last child. */
    method Append(x: XNode)
      modifies this
      ensures children == old(children) + [x]
    {
      children := children + [x];
    }

    /** `clone_rat_layer` for the child at `k`: the labelled copy is inserted first, the
        original stays where it was, hidden and locked. The name is taken from the child
        labels before the insertion. */
    method CloneRatLayer(k: nat, rats: set<Path>) returns (clones: set<Path>)
      requires k < |children|
      modifies this
      ensures children == [Labelled(Clone(old(children)[k]), RatLayerName.NextName(ChildLabels(old(children))))]
                          + old(children)[k := HiddenLocked(old(children)[k])]
      ensures clones == set p | p in rats && ValidPath(old(children)[k], p)
    {
      var layer := children[k];
      var copy;
      copy, clones := CloneLayer(layer, rats);
      var name := RatLayerName.NextName(ChildLabels(children));
      copy := Labelled(copy, name);
      children := [copy] + children;
      children := children[k + 1 := HiddenLocked(layer)];
    }
  }

  /** After the clone: the new first layer has no `id` below it, carries the next blind name
      and has the original's shape; the original displays `none`, is locked, and keeps its
      other style properties. */
  lemma NewBlindFacts(children: seq<XNode>, k: nat, p: Path)
    requires k < |children|
    ensures var c := Labelled(Clone(children[k]), RatLayerName.NextName(ChildLabels(children)));
      && c.attrs[LABEL] == RatLayerName.NextName(ChildLabels(children))
      && ID !in c.attrs
      && (forall i | 0 <= i < |c.children| :: NoIds(c.children[i]))
      && (p != [] ==> (ValidPath(c, p) <==> ValidPath(children[k], p)))
    ensures var h := HiddenLocked(children[k]);
      && Style.Get(Style.Parsed(StyleOf(h)), "display") == Some("none")
      && (forall q :: q != "display" ==> Style.Get(Style.Parsed(StyleOf(h)), q) == Style.Get(Style.Parsed(StyleOf(children[k])), q))
      && h.attrs[INSENSITIVE] == "true"
      && h.children == children[k].children
  {
    var x := children[k];
    var c := Labelled(Clone(x), RatLayerName.NextName(ChildLabels(children)));
    CloneNoIds(x);
    CloneAt(x, p);
    assert c.children == Clone(x).children;
    Style.SetPropertyEffect(StyleOf(x), "display", "none");
  }
}
