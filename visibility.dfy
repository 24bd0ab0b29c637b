/** Layer visibility as the inset extensions see it: `is_visible`, `get_visible_layers`
    and the `temporary_visibility` scope, which records every style it overwrites and
    puts them back in reverse order when the scope is left, normally or by an exception. */
module Visibility {
  import opened Wrappers
  import opened Svg
  import Strings

  /** The element and each of its ancestors lacks `display:none`. */
  predicate Visible(t: Tree, n: Node)
    requires WellFormed(t) && n in t.elems
    decreases n
  {
    Display(t.elems[n]) != Some("none") && (n == ROOT || Visible(t, t.elems[n].parent.value))
  }

  /** An element is visible exactly when nothing on its ancestor-or-self chain is hidden. */
  lemma {:induction false} VisibleIffNoHiddenAncestor(t: Tree, n: Node)
    requires WellFormed(t) && n in t.elems
    ensures Visible(t, n) <==> forall a :: a in t.elems && AncestorOrSelf(t, a, n) ==> Display(t.elems[a]) != Some("none")
    decreases n
  {
    if n != ROOT {
      var q := t.elems[n].parent.value;
      VisibleIffNoHiddenAncestor(t, q);
    }
  }

  /** Visibility reads only parents and styles: changing an element's attributes keeps it. */
  lemma {:induction false} VisibleUpdateAttrs(t: Tree, m: Node, e: Element, n: Node)
    requires WellFormed(t) && m in t.elems && n in t.elems
    requires e.parent == t.elems[m].parent && e.style == t.elems[m].style
    ensures Visible(Update(t, m, e), n) == Visible(t, n)
    decreases n
  {
    if n != ROOT {
      VisibleUpdateAttrs(t, m, e, t.elems[n].parent.value);
    }
  }

  /** `is_visible(elem)`: walk up through `getparent()` until the root is passed. */
  method IsVisible(doc: Document, n: Node) returns (b: bool)
    requires doc.Valid() && n in doc.tree.elems
    ensures b == Visible(doc.tree, n)
  {
    var t := doc.tree;
    var elem: Option<Node> := Some(n);
    while elem.Some?
      invariant elem.Some? ==> elem.value in t.elems
      invariant Visible(t, n) == (elem.None? || Visible(t, elem.value))
      decreases if elem.Some? then elem.value + 1 else 0
    {
      if Display(t.elems[elem.value]) == Some("none") {
        return false;
      }
      elem := t.elems[elem.value].parent;
    }
    return true;
  }

  /** The members of `ns` that are visible, in order. */
  function FilterVisible(t: Tree, ns: seq<Node>): (r: seq<Node>)
    requires WellFormed(t) && forall k | 0 <= k < |ns| :: ns[k] in t.elems
    ensures forall n :: n in r <==> n in ns && Visible(t, n)
  {
    if ns == [] then []
    else
      var init, last := ns[..|ns| - 1], ns[|ns| - 1];
      Strings.InitLast(ns);
      FilterVisible(t, init) + if Visible(t, last) then [last] else []
  }

  lemma FilterVisibleStep(t: Tree, ns: seq<Node>, i: nat)
    requires WellFormed(t) && (forall k | 0 <= k < |ns| :: ns[k] in t.elems) && i < |ns|
    ensures FilterVisible(t, ns[..i + 1]) == FilterVisible(t, ns[..i]) + if Visible(t, ns[i]) then [ns[i]] else []
  {
    assert ns[..i + 1][..i] == ns[..i];
  }

  /** `get_visible_layers(svg)`, in document order. */
  function VisibleLayers(t: Tree): seq<Node>
    requires WellFormed(t)
  {
    FilterVisible(t, Layers(t))
  }

  lemma VisibleLayersMembers(t: Tree, n: Node)
    requires WellFormed(t)
    ensures n in VisibleLayers(t) <==> n in t.elems && IsLayer(t.elems[n]) && Visible(t, n)
  {
    AllMembers(t, IsLayer, n);
  }

  /** The generator loop of `get_visible_layers`. */
  method GetVisibleLayers(doc: Document) returns (r: seq<Node>)
    requires doc.Valid()
    ensures r == VisibleLayers(doc.tree)
  {
    var t := doc.tree;
    var layers := Layers(t);
    LayersListed(t);
    r := [];
    for i := 0 to |layers|
      invariant r == FilterVisible(t, layers[..i])
    {
      FilterVisibleStep(t, layers, i);
      var v := IsVisible(doc, layers[i]);
      if v {
        r := r + [layers[i]];
      }
    }
    Strings.TakeAll(layers);
  }

  lemma LayersListed(t: Tree)
    requires WellFormed(t)
    ensures forall k | 0 <= k < |Layers(t)| :: Layers(t)[k] in t.elems
  {
  }

  // ---- temporary_visibility ----

  /** What `saved` holds: an element and the raw `style` it had before being changed. */
  type Saved = seq<(Node, Option<string>)>

  type Styles = map<Node, Option<string>>

  function StylesOf(t: Tree): (r: Styles)
    ensures r.Keys == t.elems.Keys
  {
    map n | n in t.elems :: t.elems[n].style
  }

  /** The styles after `for elem, style in reversed(saved): elem.set("style", style)`. */
  function Unwind(styles: Styles, saved: Saved): Styles
    decreases |saved|
  {
    if saved == [] then styles
    else
      var (n, s) := saved[|saved| - 1];
      Unwind(styles[n := s], saved[..|saved| - 1])
  }

  /** Same elements, tags, parents and attributes; only `style` may differ. */
  predicate SameButStyles(a: Tree, b: Tree) {
    && a.next == b.next && a.elems.Keys == b.elems.Keys
    && forall n :: n in a.elems ==> a.elems[n].(style := None) == b.elems[n].(style := None)
  }

  lemma UnwindLast(styles: Styles, saved: Saved, n: Node, s: Option<string>)
    ensures Unwind(styles, saved + [(n, s)]) == Unwind(styles[n := s], saved)
  {
    assert (saved + [(n, s)])[..|saved|] == saved;
  }

  lemma StylesOfUpdate(t: Tree, n: Node, e: Element)
    requires WellFormed(t) && n in t.elems && e.parent == t.elems[n].parent
    ensures StylesOf(Update(t, n, e)) == StylesOf(t)[n := e.style]
  {
  }

  /** One `set_visibility(elem, visible)` on a pure tree and save list. */
  function SetVisibilityStep(t: Tree, saved: Saved, n: Node, visible: bool): (Tree, Saved)
    requires WellFormed(t) && n in t.elems
  {
    (Update(t, n, WithDisplay(t.elems[n], visible)), saved + [(n, t.elems[n].style)])
  }

  /** A sequence of `set_visibility` calls inside one scope. */
  function SetAll(t: Tree, saved: Saved, ops: seq<(Node, bool)>): (r: (Tree, Saved))
    requires WellFormed(t) && forall o | o in ops :: o.0 in t.elems
    ensures WellFormed(r.0) && SameButStyles(r.0, t)
    decreases |ops|
  {
    if ops == [] then (t, saved)
    else
      var (t1, s1) := SetVisibilityStep(t, saved, ops[0].0, ops[0].1);
      StepSameButStyles(t, saved, ops[0].0, ops[0].1);
      var r := SetAll(t1, s1, ops[1..]);
      SameButStylesTrans(r.0, t1, t);
      r
  }

  /** One `set_visibility` changes nothing but styles. */
  lemma StepSameButStyles(t: Tree, saved: Saved, n: Node, visible: bool)
    requires WellFormed(t) && n in t.elems
    ensures var t1 := SetVisibilityStep(t, saved, n, visible).0;
      WellFormed(t1) && SameButStyles(t1, t) && forall o :: o in t.elems <==> o in t1.elems
  {
    var e := t.elems[n];
    assert WithDisplay(e, visible) == e.(style := WithDisplay(e, visible).style);
    RestyleSame(t, n, WithDisplay(e, visible).style, t);
  }

  /** Two elements that agree but for their style, and on their style, are equal. */
  lemma SameWithStyle(x: Element, y: Element)
    requires x.(style := None) == y.(style := None) && x.style == y.style
    ensures x == y
  {
  }

  lemma SameButStylesTrans(a: Tree, b: Tree, c: Tree)
    requires SameButStyles(a, b) && SameButStyles(b, c)
    ensures SameButStyles(a, c)
  {
  }

  /** The calls `ops + [op]` are the calls `ops` followed by one more step. */
  lemma {:induction false} SetAllSnoc(t: Tree, saved: Saved, ops: seq<(Node, bool)>, op: (Node, bool))
    requires WellFormed(t) && (forall o | o in ops :: o.0 in t.elems) && op.0 in t.elems
    ensures var r := SetAll(t, saved, ops); SetAll(t, saved, ops + [op]) == SetVisibilityStep(r.0, r.1, op.0, op.1)
    decreases |ops|
  {
    if ops == [] {
      assert ops + [op] == [op];
      SetAllOne(t, saved, op);
    } else {
      var ops' := ops + [op];
      Strings.SnocTail(ops, op);
      SetAllFirst(t, saved, ops');
      SetAllFirst(t, saved, ops);
      var r1 := SetVisibilityStep(t, saved, ops[0].0, ops[0].1);
      StepSameButStyles(t, saved, ops[0].0, ops[0].1);
      SetAllSnoc(r1.0, r1.1, ops[1..], op);
    }
  }

  lemma SetAllOne(t: Tree, saved: Saved, op: (Node, bool))
    requires WellFormed(t) && op.0 in t.elems
    ensures SetAll(t, saved, [op]) == SetVisibilityStep(t, saved, op.0, op.1)
  {
    var r := SetVisibilityStep(t, saved, op.0, op.1);
    assert [op][1..] == [];
    assert SetAll(t, saved, [op]) == SetAll(r.0, r.1, []);
  }

  lemma SetAllFirst(t: Tree, saved: Saved, ops: seq<(Node, bool)>)
    requires WellFormed(t) && (forall o | o in ops :: o.0 in t.elems) && ops != []
    ensures var r := SetVisibilityStep(t, saved, ops[0].0, ops[0].1); SetAll(t, saved, ops) == SetAll(r.0, r.1, ops[1..])
  {
  }

  /** Two trees that differ at most in `style` and agree on every `style` are equal. */
  lemma SameStylesSame(a: Tree, b: Tree)
    requires SameButStyles(a, b) && StylesOf(a) == StylesOf(b)
    ensures a == b
  {
    forall n | n in a.elems ensures a.elems[n] == b.elems[n] {
      assert a.elems[n].style == StylesOf(a)[n];
    }
  }

  /** Undoing one `set_visibility` call gives back the styles from before it. */
  lemma StepRestores(t: Tree, saved: Saved, n: Node, v: bool)
    requires WellFormed(t) && n in t.elems
    ensures var r := SetVisibilityStep(t, saved, n, v); Unwind(StylesOf(r.0), r.1) == Unwind(StylesOf(t), saved)
  {
    var e := WithDisplay(t.elems[n], v);
    var t1 := Update(t, n, e);
    StylesOfUpdate(t, n, e);
    OverwriteRestores(StylesOf(t), n, e.style);
    UnwindLast(StylesOf(t1), saved, n, t.elems[n].style);
  }

  /** Writing back the value a key had undoes any write to it. */
  lemma OverwriteRestores(styles: Styles, n: Node, s: Option<string>)
    requires n in styles
    ensures styles[n := s][n := styles[n]] == styles
  {
  }

  /** Leaving the scope after any sequence of `set_visibility` calls, even several on one
      element, gives every element back the style it had when the scope was entered. */
  lemma {:induction false} ScopeRestores(t: Tree, saved: Saved, ops: seq<(Node, bool)>)
    requires WellFormed(t) && forall o | o in ops :: o.0 in t.elems
    ensures var r := SetAll(t, saved, ops); Unwind(StylesOf(r.0), r.1) == Unwind(StylesOf(t), saved)
    decreases |ops|
  {
    if ops != [] {
      var n, v := ops[0].0, ops[0].1;
      var t1 := Update(t, n, WithDisplay(t.elems[n], v));
      var s1 := saved + [(n, t.elems[n].style)];
      assert SetAll(t, saved, ops) == SetAll(t1, s1, ops[1..]);
      StepRestores(t, saved, n, v);
      ScopeRestores(t1, s1, ops[1..]);
    }
  }

  /** The invariant of the restoring loop: the document differs from `base` only in its
      styles, and unwinding the first `i` saved entries gives back `goal`. */
  ghost predicate Unwinding(t: Tree, saved: Saved, i: int, base: Tree, goal: Styles) {
    && WellFormed(t) && 0 <= i <= |saved| && SameButStyles(t, base)
    && (forall k | 0 <= k < |saved| :: saved[k].0 in base.elems)
    && Unwind(StylesOf(t), saved[..i]) == goal
  }

  lemma UnwindingStart(t: Tree, saved: Saved, goal: Styles)
    requires WellFormed(t) && (forall i :: 0 <= i < |saved| ==> saved[i].0 in t.elems)
    requires Unwind(StylesOf(t), saved) == goal
    ensures Unwinding(t, saved, |saved|, t, goal)
  {
    assert saved[..|saved|] == saved;
  }

  lemma UnwindingEnd(t: Tree, saved: Saved, base: Tree, goal: Styles)
    requires Unwinding(t, saved, 0, base, goal)
    ensures StylesOf(t) == goal && SameButStyles(t, base)
  {
    assert saved[..0] == [];
  }

  /** Where the next entry to restore is. */
  lemma UnwindNext(t: Tree, saved: Saved, i: nat, base: Tree, goal: Styles)
    requires 0 < i && Unwinding(t, saved, i, base, goal)
    ensures saved[i - 1].0 in t.elems
  {
  }

  /** Restoring the last of the first `i` entries leaves the first `i - 1` to unwind. */
  lemma UnwindPop(t: Tree, saved: Saved, i: nat, base: Tree, goal: Styles, t': Tree)
    requires 0 < i && Unwinding(t, saved, i, base, goal) && saved[i - 1].0 in t.elems
    requires t' == Update(t, saved[i - 1].0, t.elems[saved[i - 1].0].(style := saved[i - 1].1))
    ensures Unwinding(t', saved, i - 1, base, goal)
  {
    var n, s := saved[i - 1].0, saved[i - 1].1;
    StylesOfUpdate(t, n, t.elems[n].(style := s));
    UnwindInit(StylesOf(t), saved[..i]);
    Strings.TakeTake(saved, i - 1, i);
    RestyleSame(t, n, s, base);
  }

  /** Unwinding a non-empty list restores its last entry first. */
  lemma UnwindInit(styles: Styles, saved: Saved)
    requires saved != []
    ensures Unwind(styles, saved) == Unwind(styles[saved[|saved| - 1].0 := saved[|saved| - 1].1], saved[..|saved| - 1])
  {
  }

  /** Setting one element's style changes nothing but styles. */
  lemma RestyleSame(t: Tree, n: Node, s: Option<string>, base: Tree)
    requires WellFormed(t) && n in t.elems && SameButStyles(t, base)
    ensures SameButStyles(Update(t, n, t.elems[n].(style := s)), base)
  {
  }

  /** The context manager: the `saved` list of one `with temporary_visibility()` block. */
  class VisibilityScope {
    const doc: Document
    var saved: Saved
    /** The styles when the block was entered. */
    ghost const entry: Styles

    ghost predicate Valid()
      reads this, doc
    {
      && doc.Valid()
      && (forall i :: 0 <= i < |saved| ==> saved[i].0 in doc.tree.elems)
      && Unwind(StylesOf(doc.tree), saved) == entry
    }

    constructor(d: Document)
      requires d.Valid()
      ensures Valid() && doc == d && saved == [] && entry == StylesOf(d.tree)
    {
      doc := d;
      saved := [];
      entry := StylesOf(d.tree);
    }

    /** `set_visibility(elem, visible)`: record the raw style, then set `display`. */
    method SetVisibility(n: Node, visible: bool)
      requires Valid() && n in doc.tree.elems
      modifies this, doc
      ensures Valid()
      ensures saved == old(saved) + [(n, old(doc.tree).elems[n].style)]
      ensures doc.tree == Update(old(doc.tree), n, WithDisplay(old(doc.tree).elems[n], visible))
    {
      var t := doc.tree;
      StepRestores(t, saved, n, visible);
      saved := saved + [(n, t.elems[n].style)];
      doc.tree := Update(t, n, WithDisplay(t.elems[n], visible));
    }

    /** Other work inside the block: any change that keeps the elements and leaves every
        `style` alone keeps the scope valid. */
    method Replace(t: Tree)
      requires Valid() && WellFormed(t) && t.elems.Keys == doc.tree.elems.Keys && StylesOf(t) == StylesOf(doc.tree)
      modifies doc
      ensures Valid() && doc.tree == t
    {
      doc.tree := t;
    }

    /** The `finally` clause: restore the saved styles, last saved first. */
    method Restore()
      requires Valid()
      modifies doc
      ensures doc.Valid() && StylesOf(doc.tree) == entry && SameButStyles(doc.tree, old(doc.tree))
    {
      var ss := saved;
      ghost var base, goal := doc.tree, entry;
      UnwindingStart(base, ss, goal);
      var i := |ss|;
      while i > 0
        invariant Unwinding(doc.tree, ss, i, base, goal)
      {
        ghost var t := doc.tree;
        UnwindNext(t, ss, i, base, goal);
        doc.SetStyle(ss[i - 1].0, ss[i - 1].1);
        UnwindPop(t, ss, i, base, goal, doc.tree);
        i := i - 1;
      }
      UnwindingEnd(doc.tree, ss, base, goal);
    }
  }
}
