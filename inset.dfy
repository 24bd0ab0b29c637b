/** What the three copies of the inset extension share: the provenance an inset carries
    (the export id and the ids of the layers that were visible), the document the
    renderer sees while an inset is re-exported, and the size arithmetic of an export. */
module Inset {
  import opened Wrappers
  import opened Strings
  import opened Svg
  import opened Visibility
  import opened Process
  import opened Png

  /** `BH_INSET_EXPORT_ID` and `BH_INSET_VISIBLE_LAYERS`, in the `bh:` namespace. */
  const EXPORT_ID: string := "bh:inset--export-id"
  const VISIBLE_LAYERS: string := "bh:inset--visible-layers"
  const HREF: string := "xlink:href"

  /** The attribute names the extensions use are pairwise different. */
  lemma AttrNamesDistinct()
    ensures "id" != "inkscape:groupmode" && "id" != EXPORT_ID && "id" != VISIBLE_LAYERS && "id" != HREF && "id" != "width" && "id" != "height" && "id" != "x" && "id" != "y" && "id" != "preserveAspectRatio"
    ensures "inkscape:groupmode" != EXPORT_ID && "inkscape:groupmode" != VISIBLE_LAYERS && "inkscape:groupmode" != HREF && "inkscape:groupmode" != "width" && "inkscape:groupmode" != "height" && "inkscape:groupmode" != "x" && "inkscape:groupmode" != "y" && "inkscape:groupmode" != "preserveAspectRatio"
    ensures EXPORT_ID != VISIBLE_LAYERS && EXPORT_ID != HREF && EXPORT_ID != "width" && EXPORT_ID != "height" && EXPORT_ID != "x" && EXPORT_ID != "y" && EXPORT_ID != "preserveAspectRatio"
    ensures VISIBLE_LAYERS != HREF && VISIBLE_LAYERS != "width" && VISIBLE_LAYERS != "height" && VISIBLE_LAYERS != "x" && VISIBLE_LAYERS != "y" && VISIBLE_LAYERS != "preserveAspectRatio"
    ensures HREF != "width" && HREF != "height" && HREF != "x" && HREF != "y" && HREF != "preserveAspectRatio"
    ensures "width" != "height" && "width" != "x" && "width" != "y" && "width" != "preserveAspectRatio"
    ensures "height" != "x" && "height" != "y" && "height" != "preserveAspectRatio"
    ensures "x" != "y" && "x" != "preserveAspectRatio"
    ensures "y" != "preserveAspectRatio"
  {
    var names := ["id", "inkscape:groupmode", EXPORT_ID, VISIBLE_LAYERS, HREF, "width", "height", "x", "y", "preserveAspectRatio"];
    forall i, j | 0 <= i < j < |names| ensures names[i] != names[j] {
      if |names[i]| == |names[j]| {
        assert names[i][0] != names[j][0];
      }
    }
  }

  // ---- layer ids ----

  /** Every layer already has an XML id, so `layer.get_id()` invents none. */
  predicate LayersHaveIds(t: Tree) {
    forall n | n in t.elems && IsLayer(t.elems[n]) :: Attr(t.elems[n], "id").Some? && IsName(Attr(t.elems[n], "id").value)
  }

  /** No two layers share an id. */
  predicate UniqueLayerIds(t: Tree)
    requires LayersHaveIds(t)
  {
    forall m, n | m in t.elems && n in t.elems && IsLayer(t.elems[m]) && IsLayer(t.elems[n]) && m != n ::
      Attr(t.elems[m], "id") != Attr(t.elems[n], "id")
  }

  function LayerId(t: Tree, n: Node): string
    requires LayersHaveIds(t) && n in t.elems && IsLayer(t.elems[n])
  {
    Attr(t.elems[n], "id").value
  }

  /** `{layer.get_id() for layer in get_visible_layers(svg)}`. */
  function VisibleLayerIds(t: Tree): set<string>
    requires WellFormed(t) && LayersHaveIds(t)
  {
    set n | n in t.elems && IsLayer(t.elems[n]) && Visible(t, n) :: LayerId(t, n)
  }

  /** With unique ids, a layer's id is recorded exactly when the layer is visible. */
  lemma VisibleLayerIdsExact(t: Tree, n: Node)
    requires WellFormed(t) && LayersHaveIds(t) && UniqueLayerIds(t)
    requires n in t.elems && IsLayer(t.elems[n])
    ensures LayerId(t, n) in VisibleLayerIds(t) <==> Visible(t, n)
  {
  }

  // ---- provenance: " ".join(ids) and set(text.split()) ----

  /** `order` lists each member of `ids` exactly once: one iteration order of a Python set. */
  predicate Enumerates(order: seq<string>, ids: set<string>) {
    && (forall i, j | 0 <= i < j < |order| :: order[i] != order[j])
    && (forall x | x in ids :: x in order)
    && (forall i | 0 <= i < |order| :: order[i] in ids)
  }

  /** `" ".join(ids)`: the set's members in its iteration order, separated by single spaces. */
  method JoinIds(ids: set<string>) returns (s: string)
    requires forall x | x in ids :: IsName(x)
    ensures Enumerates(Words(s), ids)
    ensures s == "" <==> ids == {}
  {
    var order: seq<string> := [];
    var rest := ids;
    while rest != {}
      invariant rest <= ids
      invariant forall x :: x in ids <==> x in order || x in rest
      invariant forall x | x in order :: x !in rest
      invariant forall i, j | 0 <= i < j < |order| :: order[i] != order[j]
      decreases rest
    {
      var x :| x in rest;
      order := order + [x];
      rest := rest - {x};
    }
    s := Join(order, " ");
    WordsJoin(order);
    if order != [] {
      assert order[0] in ids;
      assert |s| >= |order[0]|;
    }
  }

  /** `set(image.get(BH_INSET_VISIBLE_LAYERS, "").split())`. */
  function ReadVisibleLayers(e: Element): set<string> {
    var words := Words(Attr(e, VISIBLE_LAYERS).GetOr(""));
    set i | 0 <= i < |words| :: words[i]
  }

  /** The stored text reads back as exactly the set that was written. */
  lemma ProvenanceRoundTrip(e: Element, text: string, ids: set<string>)
    requires Enumerates(Words(text), ids)
    ensures ReadVisibleLayers(SetAttr(e, VISIBLE_LAYERS, Str(text))) == ids
  {
    assert Attr(SetAttr(e, VISIBLE_LAYERS, Str(text)), VISIBLE_LAYERS) == Some(text);
    ProvenanceRead(SetAttr(e, VISIBLE_LAYERS, Str(text)), text, ids);
  }

  /** `split()` cannot give back an id that is empty or holds white space: whatever text is
      stored, such an id is never among the ids read back. This is why the layers are
      required to carry ids that are names. */
  lemma NonNameNeverRead(e: Element, text: string, x: string)
    requires !IsName(x)
    ensures x !in ReadVisibleLayers(SetAttr(e, VISIBLE_LAYERS, Str(text)))
  {
    assert Attr(SetAttr(e, VISIBLE_LAYERS, Str(text)), VISIBLE_LAYERS) == Some(text);
  }

  /** A layer id made of two names around a space, such as `layer 1`, is stored as it is
      and read back as two ids. */
  lemma SpacedIdSplits(a: string, b: string)
    requires IsName(a) && IsName(b)
    ensures !IsName(a + " " + b) && Words(a + " " + b) == [a, b]
  {
    var s := a + " " + b;
    assert s[|a|] == ' ';
    assert s == a + (" " + b);
    WordOfPrefix(a, " " + b);
    assert s[|a|..] == " " + b;
    assert (" " + b)[1..] == b;
    WordOfPrefix(b, "");
    assert b + "" == b && b[|b|..] == "";
    assert s[0] == a[0] && !IsSpace(s[0]);
    assert Words(s) == [a] + Words(" " + b);
    assert Words(" " + b) == Words(b);
    assert Words(b) == [b] + Words("");
  }

  /** An image whose stored text enumerates `ids` reads back as `ids`. */
  lemma ProvenanceRead(e: Element, text: string, ids: set<string>)
    requires Attr(e, VISIBLE_LAYERS) == Some(text) && Enumerates(Words(text), ids)
    ensures ReadVisibleLayers(e) == ids
  {
    var words := Words(text);
    forall x ensures x in ids <==> x in (set i | 0 <= i < |words| :: words[i]) {
      if x in ids {
        var i :| 0 <= i < |words| && words[i] == x;
      }
    }
  }

  // ---- what the renderer sees while an inset is re-exported ----

  /** The `set_visibility` calls of a recreation for the layers `ls`: visible iff the id was stored. */
  function LayerOps(t: Tree, ls: seq<Node>, ids: set<string>): (r: seq<(Node, bool)>)
    requires LayersHaveIds(t) && forall n | n in ls :: n in t.elems && IsLayer(t.elems[n])
    ensures |r| == |ls| && forall i | 0 <= i < |ls| :: r[i] == (ls[i], LayerId(t, ls[i]) in ids)
    ensures forall o | o in r :: o.0 in ls
  {
    if ls == [] then [] else [(ls[0], LayerId(t, ls[0]) in ids)] + LayerOps(t, ls[1..], ids)
  }

  /** Hide the inset image, then set every layer in document order. */
  function RecreateOps(t: Tree, image: Node, ids: set<string>): (r: seq<(Node, bool)>)
    requires WellFormed(t) && LayersHaveIds(t) && image in t.elems
    ensures forall o | o in r :: o.0 in t.elems
  {
    var ls := Layers(t);
    [(image, false)] + LayerOps(t, ls, ids)
  }

  /** The document inside the visibility scope of a recreation. */
  function RecreateView(t: Tree, image: Node, ids: set<string>): Tree
    requires WellFormed(t) && LayersHaveIds(t) && image in t.elems
  {
    SetAll(t, [], RecreateOps(t, image, ids)).0
  }

  /** The value the calls `ops` set for `n`, if any. */
  function OpFor(ops: seq<(Node, bool)>, n: Node): Option<bool> {
    if ops == [] then None
    else if ops[0].0 == n then Some(ops[0].1)
    else OpFor(ops[1..], n)
  }

  predicate DistinctTargets(ops: seq<(Node, bool)>) {
    forall i, j | 0 <= i < j < |ops| :: ops[i].0 != ops[j].0
  }

  lemma DistinctTail(ops: seq<(Node, bool)>)
    requires DistinctTargets(ops) && ops != []
    ensures DistinctTargets(ops[1..]) && forall i | 0 <= i < |ops| - 1 :: ops[1..][i].0 != ops[0].0
  {
    assert forall i | 0 <= i < |ops| - 1 :: ops[1..][i] == ops[i + 1];
  }

  lemma {:induction false} OpForAbsent(ops: seq<(Node, bool)>, n: Node)
    requires forall i | 0 <= i < |ops| :: ops[i].0 != n
    ensures OpFor(ops, n).None?
  {
    if ops != [] {
      OpForAbsent(ops[1..], n);
    }
  }

  /** When no element is set twice, each ends with the display its call gave it, or untouched. */
  lemma {:induction false} SetAllEffect(t: Tree, saved: Saved, ops: seq<(Node, bool)>, n: Node)
    requires WellFormed(t) && (forall o | o in ops :: o.0 in t.elems) && n in t.elems
    requires DistinctTargets(ops)
    ensures SetAll(t, saved, ops).0.elems[n] == match OpFor(ops, n)
      case None => t.elems[n]
      case Some(v) => WithDisplay(t.elems[n], v)
    decreases |ops|
  {
    if ops != [] {
      var m, v := ops[0].0, ops[0].1;
      var t1 := Update(t, m, WithDisplay(t.elems[m], v));
      var s1 := saved + [(m, t.elems[m].style)];
      var rest := ops[1..];
      assert SetAll(t, saved, ops) == SetAll(t1, s1, rest);
      DistinctTail(ops);
      SetAllEffect(t1, s1, rest, n);
      if n == m {
        OpForAbsent(rest, n);
      } else {
        assert t1.elems[n] == t.elems[n];
      }
    }
  }

  lemma {:induction false} OpForLayerOps(t: Tree, ls: seq<Node>, ids: set<string>, n: Node)
    requires LayersHaveIds(t) && forall m | m in ls :: m in t.elems && IsLayer(t.elems[m])
    ensures OpFor(LayerOps(t, ls, ids), n) == if n in ls then Some(LayerId(t, n) in ids) else None
  {
    if ls != [] {
      OpForLayerOps(t, ls[1..], ids, n);
      assert LayerOps(t, ls, ids)[1..] == LayerOps(t, ls[1..], ids);
    }
  }

  /** The recreation touches the image once and every layer once. */
  lemma RecreateOpsFacts(t: Tree, image: Node, ids: set<string>, n: Node)
    requires WellFormed(t) && LayersHaveIds(t) && image in t.elems && !IsLayer(t.elems[image])
    ensures DistinctTargets(RecreateOps(t, image, ids))
    ensures OpFor(RecreateOps(t, image, ids), n) ==
      if n == image then Some(false)
      else if n in t.elems && IsLayer(t.elems[n]) then Some(LayerId(t, n) in ids)
      else None
  {
    var ls := Layers(t);
    var ops := RecreateOps(t, image, ids);
    AllMembers(t, IsLayer, n);
    AllMembers(t, IsLayer, image);
    assert ops[1..] == LayerOps(t, ls, ids);
    OpForLayerOps(t, ls, ids, n);
    forall i, j | 0 <= i < j < |ops| ensures ops[i].0 != ops[j].0 {
      if i == 0 {
        assert ops[j].0 == ls[j - 1];
      } else {
        assert ops[i].0 == ls[i - 1] && ops[j].0 == ls[j - 1];
      }
    }
  }

  /** Inside the scope of a recreation the inset image is hidden, each layer is shown exactly
      when its id was stored, and every other element is as it was. */
  lemma RecreateViewElement(t: Tree, image: Node, ids: set<string>, n: Node)
    requires WellFormed(t) && LayersHaveIds(t) && image in t.elems && !IsLayer(t.elems[image])
    requires n in t.elems
    ensures var v := RecreateView(t, image, ids);
      && WellFormed(v) && SameButStyles(v, t)
      && v.elems[n] ==
        if n == image then WithDisplay(t.elems[n], false)
        else if IsLayer(t.elems[n]) then WithDisplay(t.elems[n], LayerId(t, n) in ids)
        else t.elems[n]
  {
    RecreateOpsFacts(t, image, ids, n);
    SetAllEffect(t, [], RecreateOps(t, image, ids), n);
  }

  /** The display each element has while the renderer runs. */
  lemma RecreateViewDisplay(t: Tree, image: Node, ids: set<string>, n: Node)
    requires WellFormed(t) && LayersHaveIds(t) && image in t.elems && !IsLayer(t.elems[image])
    requires n in t.elems
    ensures var v := RecreateView(t, image, ids);
      && (n == image ==> Display(v.elems[n]) == Some("none"))
      && (IsLayer(t.elems[n]) ==> Display(v.elems[n]) == Some(if LayerId(t, n) in ids then "inline" else "none"))
  {
    RecreateViewElement(t, image, ids, n);
    WithDisplayShows(t.elems[n], n != image && IsLayer(t.elems[n]) && LayerId(t, n) in ids);
  }

  /** The display attribute is all that a recreation changes: with the layers' styles kept,
      `get_layers` finds the same layers, in the same order. */
  lemma {:induction false} SelectSameButStyles(a: Tree, b: Tree, k: nat)
    requires SameButStyles(a, b)
    ensures Select(a, IsLayer, k) == Select(b, IsLayer, k)
  {
    if k > 0 {
      SelectSameButStyles(a, b, k - 1);
      if k - 1 in a.elems {
        assert a.elems[k - 1].(style := None) == b.elems[k - 1].(style := None);
      }
    }
  }

  /** The first call of a recreation hides the image. */
  lemma RecreateFirst(t: Tree, image: Node, ids: set<string>)
    requires WellFormed(t) && LayersHaveIds(t) && image in t.elems
    ensures var ops := RecreateOps(t, image, ids);
      SetAll(t, [], ops[..1]) == SetVisibilityStep(t, [], image, false)
  {
    var ops := RecreateOps(t, image, ids);
    SetAllOne(t, [], ops[0]);
    assert ops[..1] == [ops[0]];
  }

  /** Call `i + 1` of a recreation sets layer `i` from the id it carries in the current document. */
  lemma RecreateNext(t: Tree, image: Node, ids: set<string>, i: nat, cur: Tree, saved: Saved)
    requires WellFormed(t) && LayersHaveIds(t) && image in t.elems && i < |Layers(t)|
    requires (cur, saved) == SetAll(t, [], RecreateOps(t, image, ids)[..i + 1])
    ensures var layer := Layers(t)[i];
      && layer in cur.elems && Attr(cur.elems[layer], "id").Some?
      && SetAll(t, [], RecreateOps(t, image, ids)[..i + 2])
         == SetVisibilityStep(cur, saved, layer, Attr(cur.elems[layer], "id").value in ids)
  {
    var ops := RecreateOps(t, image, ids);
    var layer := Layers(t)[i];
    RecreateOpAt(t, image, ids, i);
    IdKept(t, cur, layer);
    SetAllSnoc(t, [], ops[..i + 1], ops[i + 1]);
    TakeLast(ops, i + 2);
  }

  /** Call `i + 1` of a recreation sets the `i`-th layer. */
  lemma RecreateOpAt(t: Tree, image: Node, ids: set<string>, i: nat)
    requires WellFormed(t) && LayersHaveIds(t) && image in t.elems && i < |Layers(t)|
    ensures var ops := RecreateOps(t, image, ids); var layer := Layers(t)[i];
      i + 2 <= |ops| && layer in t.elems && IsLayer(t.elems[layer]) && ops[i + 1] == (layer, LayerId(t, layer) in ids)
  {
  }

  /** Restyling keeps every id. */
  lemma IdKept(t: Tree, cur: Tree, n: Node)
    requires SameButStyles(cur, t) && n in t.elems
    ensures n in cur.elems && Attr(cur.elems[n], "id") == Attr(t.elems[n], "id")
  {
    assert cur.elems[n].(style := None) == t.elems[n].(style := None);
  }

  /** The `with temporary_visibility()` block of a recreation up to the export: hide the inset
      image, then give every layer, in document order, the visibility its stored id calls for.
      The document is then exactly the view the specification function describes. */
  method HideForRecreate(doc: Document, image: Node, ids: set<string>) returns (scope: VisibilityScope)
    requires doc.Valid() && LayersHaveIds(doc.tree) && image in doc.tree.elems && !IsLayer(doc.tree.elems[image])
    modifies doc
    ensures fresh(scope) && scope.Valid() && scope.doc == doc && scope.entry == StylesOf(old(doc.tree))
    ensures doc.tree == RecreateView(old(doc.tree), image, ids)
  {
    var t := doc.tree;
    scope := new VisibilityScope(doc);
    scope.SetVisibility(image, false);
    RecreateFirst(t, image, ids);
    SetLayers(scope, t, image, ids);
  }

  /** `for layer in get_layers(svg): set_visibility(layer, layer.get_id() in visible_layer_ids)`. */
  method SetLayers(scope: VisibilityScope, t: Tree, image: Node, ids: set<string>)
    requires WellFormed(t) && LayersHaveIds(t) && image in t.elems && scope.Valid()
    requires (scope.doc.tree, scope.saved) == SetAll(t, [], RecreateOps(t, image, ids)[..1])
    modifies scope, scope.doc
    ensures scope.Valid()
    ensures scope.doc.tree == RecreateView(t, image, ids)
  {
    ghost var ops := RecreateOps(t, image, ids);
    var doc := scope.doc;
    var layers := Layers(doc.tree);
    SelectSameButStyles(doc.tree, t, t.next);
    for i := 0 to |layers|
      invariant scope.Valid()
      invariant (doc.tree, scope.saved) == SetAll(t, [], ops[..i + 1])
    {
      RecreateNext(t, image, ids, i, doc.tree, scope.saved);
      var layer := layers[i];
      scope.SetVisibility(layer, Attr(doc.tree.elems[layer], "id").value in ids);
    }
    RecreateAllOps(t, image, ids);
  }

  /** The calls of a recreation are the image's and one per layer. */
  lemma RecreateAllOps(t: Tree, image: Node, ids: set<string>)
    requires WellFormed(t) && LayersHaveIds(t) && image in t.elems
    ensures var ops := RecreateOps(t, image, ids); ops[..|Layers(t)| + 1] == ops
  {
  }

  /** Leaving the block after the export has filled in the image: every style is back, and
      the document differs from the one before the block only in that image. */
  lemma RestoredAfterExport(before: Tree, inside: Tree, after: Tree, image: Node, e: Element)
    requires WellFormed(before) && image in before.elems
    requires SameButStyles(inside, before) && e.parent == before.elems[image].parent
    requires e.style == inside.elems[image].style
    requires SameButStyles(after, inside.(elems := inside.elems[image := e])) && StylesOf(after) == StylesOf(before)
    ensures after == Update(before, image, e.(style := before.elems[image].style))
  {
    var want := Update(before, image, e.(style := before.elems[image].style));
    forall n | n in after.elems ensures after.elems[n] == want.elems[n] {
      RestoredAt(before, inside, after, image, e, n);
    }
    SameTree(after, want);
  }

  lemma RestoredAt(before: Tree, inside: Tree, after: Tree, image: Node, e: Element, n: Node)
    requires WellFormed(before) && image in before.elems && n in before.elems
    requires SameButStyles(inside, before) && e.parent == before.elems[image].parent
    requires e.style == inside.elems[image].style
    requires SameButStyles(after, inside.(elems := inside.elems[image := e])) && StylesOf(after) == StylesOf(before)
    ensures after.elems[n] == Update(before, image, e.(style := before.elems[image].style)).elems[n]
  {
    var want := Update(before, image, e.(style := before.elems[image].style)).elems[n];
    assert after.elems[n].style == StylesOf(after)[n] == StylesOf(before)[n] == before.elems[n].style;
    if n == image {
      assert after.elems[n].(style := None) == e.(style := None);
      assert want == e.(style := before.elems[image].style);
    } else {
      assert after.elems[n].(style := None) == inside.elems[n].(style := None) == before.elems[n].(style := None);
      assert want == before.elems[n];
    }
    SameWithStyle(after.elems[n], want);
  }

  /** After the export has filled in the image and the styles are restored, the document is
      the one from before the recreation with only the image's data and size changed. */
  lemma RecreateFilled(t: Tree, image: Node, ids: set<string>, after: Tree, data: seq<byte>, w: real, h: real)
    requires WellFormed(t) && LayersHaveIds(t) && image in t.elems && t.elems[image].tag == Image
    requires var inside := RecreateView(t, image, ids);
      SameButStyles(after, Update(inside, image, WithImageData(inside.elems[image], data, w, h)))
    requires StylesOf(after) == StylesOf(t)
    ensures after == Update(t, image, WithImageData(t.elems[image], data, w, h))
  {
    var inside := RecreateView(t, image, ids);
    RecreateViewElement(t, image, ids, image);
    var filled := WithImageData(inside.elems[image], data, w, h);
    RestoredAfterExport(t, inside, after, image, filled);
    assert filled.(style := t.elems[image].style) == WithImageData(t.elems[image], data, w, h);
  }

  // ---- the export: the renderer and the optimiser as inputs ----

  const INKSCAPE: string := "inkscape"
  const OPTIPNG: string := "optipng"

  /** What Inkscape is asked to render: the document, the element whose bounding box is
      exported, the resolution and the background. */
  datatype RenderRequest = RenderRequest(doc: Tree, exportId: string, dpi: real, background: string, opacity: real)

  /** The external programs. `found(p)` is whether `p` resolves on the search path; `render`
      is how an Inkscape run on a request completes and the PNG file it leaves behind, if
      any; `optimise` does the same for `optipng -o <level>` on that file. */
  datatype Tools = Tools(
    found: string -> bool,
    render: RenderRequest -> (Completed, Option<seq<byte>>),
    optimise: (Option<seq<byte>>, int) -> (Completed, Option<seq<byte>>))

  /** `PngOptions`: the resolution, the scale, the background and the optimisation level. */
  datatype PngOptions = PngOptions(dpi: real, scale: real, background: string, opacity: real, optipngLevel: Option<int>)

  /** `optipng_level is not None and optipng_level >= 0`. */
  predicate Optimises(o: PngOptions) {
    o.optipngLevel.Some? && o.optipngLevel.value >= 0
  }

  /** Inkscape renders at `scale * dpi`. */
  function Request(t: Tree, exportId: string, o: PngOptions): (r: RenderRequest)
    ensures r.doc == t && r.exportId == exportId && r.dpi == o.scale * o.dpi
  {
    RenderRequest(t, exportId, o.scale * o.dpi, o.background, o.opacity)
  }

  /** `png_dimensions(png_data)` and then `png_w * (96.0 / dpi)`, `png_h * (96.0 / dpi)`: the
      size of the image in user units. The pixel count is the size at `dpi` pixels per 96
      user units. */
  function EmbeddedSize(data: seq<byte>, dpi: real): Result<(real, real), Exc> {
    SizeAt(PngDimensions(data), dpi)
  }

  /** The size for the decoded header `dims`. */
  function SizeAt(dims: Result<(nat, nat), HeaderError>, dpi: real): Result<(real, real), Exc> {
    match dims
    case Failure(_) => Failure(AssertionError)
    case Success((pw, ph)) =>
      if dpi == 0.0 then Failure(ZeroDivisionError)
      else
        var imageScale := 96.0 / dpi;
        Success((pw as real * imageScale, ph as real * imageScale))
  }

  /** A header that cannot be read is an assertion failure, a zero resolution a division
      by zero; otherwise the size at `dpi` is the pixel count at 96 user units per `dpi`. */
  lemma SizeAtMeaning(dims: Result<(nat, nat), HeaderError>, dpi: real)
    ensures var r := SizeAt(dims, dpi);
      && (r == Failure(AssertionError) <==> dims.Failure?)
      && (r == Failure(ZeroDivisionError) <==> dims.Success? && dpi == 0.0)
      && (r.Success? ==> r.value.0 * dpi == dims.value.0 as real * 96.0 && r.value.1 * dpi == dims.value.1 as real * 96.0)
  {
    if dims.Success? && dpi != 0.0 {
      Rescale(dims.value.0 as real, dpi);
      Rescale(dims.value.1 as real, dpi);
    }
  }

  /** Scaling by `96 / dpi` and then by `dpi` scales by 96. */
  lemma Rescale(p: real, dpi: real)
    requires dpi != 0.0
    ensures p * (96.0 / dpi) * dpi == p * 96.0
  {
    calc {
      p * (96.0 / dpi) * dpi;
      p * ((96.0 / dpi) * dpi);
      p * 96.0;
    }
  }

  /** A 400 by 300 pixel image exported at 192 dpi is 200 by 150 user units. */
  lemma EmbeddedSizeExample(length: seq<byte>, rest: seq<byte>)
    requires |length| == 4
    ensures EmbeddedSize(Header(length, 400, 300) + rest, 192.0) == Success((200.0, 150.0))
  {
    PngDimensionsOfHeader(length, 400, 300, rest);
  }

  /** The dimension law: when Inkscape honours the requested `scale * dpi` (a box of `bw`
      user units becomes `bw * scale * dpi / 96` pixels), the embedded image is the box
      scaled by `scale`, whatever `dpi` is. */
  lemma DimensionLaw(data: seq<byte>, dpi: real, scale: real, bw: real, bh: real)
    requires PngDimensions(data).Success? && dpi != 0.0
    requires var (pw, ph) := PngDimensions(data).value;
      pw as real == bw * (scale * dpi) / 96.0 && ph as real == bh * (scale * dpi) / 96.0
    ensures EmbeddedSize(data, dpi) == Success((bw * scale, bh * scale))
  {
    DimensionLawAt(PngDimensions(data).value, dpi, scale, bw, bh);
  }

  lemma DimensionLawAt(dims: (nat, nat), dpi: real, scale: real, bw: real, bh: real)
    requires dpi != 0.0
    requires dims.0 as real == bw * (scale * dpi) / 96.0 && dims.1 as real == bh * (scale * dpi) / 96.0
    ensures SizeAt(Success(dims), dpi) == Success((bw * scale, bh * scale))
  {
    var k := 96.0 / dpi;
    var r: Result<(nat, nat), HeaderError> := Success(dims);
    assert SizeAt(r, dpi).Success?;
    assert SizeAt(r, dpi).value.0 == dims.0 as real * k && SizeAt(r, dpi).value.1 == dims.1 as real * k;
    Unscale(bw, scale, dpi);
    Unscale(bh, scale, dpi);
    assert dims.0 as real * k == bw * scale;
    assert dims.1 as real * k == bh * scale;
  }

  /** A length scaled by `scale * dpi / 96` and then by `96 / dpi` is scaled by `scale`. */
  lemma Unscale(b: real, scale: real, dpi: real)
    requires dpi != 0.0
    ensures b * (scale * dpi) / 96.0 * (96.0 / dpi) == b * scale
  {
    calc {
      b * (scale * dpi) / 96.0 * (96.0 / dpi);
      (b * scale) * (dpi / 96.0 * (96.0 / dpi));
      { assert dpi / 96.0 * (96.0 / dpi) == 1.0; }
      b * scale;
    }
  }

  /** `target.set(...)` for the data URL, the width and the height. */
  function WithImageData(e: Element, data: seq<byte>, w: real, h: real): (r: Element)
    ensures r.tag == e.tag && r.parent == e.parent && r.style == e.style
    ensures Attr(r, EXPORT_ID) == Attr(e, EXPORT_ID) && Attr(r, VISIBLE_LAYERS) == Attr(e, VISIBLE_LAYERS)
    ensures Attr(r, "id") == Attr(e, "id") && Attr(r, "inkscape:groupmode") == Attr(e, "inkscape:groupmode")
  {
    AttrNamesDistinct();
    e.(attrs := e.attrs[HREF := PngUrl(data)]["width" := Num(w)]["height" := Num(h)])
  }

  /** The image shows a PNG and its `width` and `height` are that PNG's size at `dpi`. */
  predicate ShowsPng(e: Element, dpi: real) {
    && HREF in e.attrs && e.attrs[HREF].PngUrl?
    && EmbeddedSize(e.attrs[HREF].data, dpi).Success?
    && "width" in e.attrs && e.attrs["width"] == Num(EmbeddedSize(e.attrs[HREF].data, dpi).value.0)
    && "height" in e.attrs && e.attrs["height"] == Num(EmbeddedSize(e.attrs[HREF].data, dpi).value.1)
  }

  // ---- the life cycle: what a recreation renders is what the creation saw ----

  /** Right after an inset image is added to a document, recreating it from the ids it
      stores shows every element of the original document exactly as visible as it was
      when the inset was created. */
  lemma {:induction false} RecreateSeesCreation(t: Tree, img: Element, n: Node)
    requires WellFormed(t) && LayersHaveIds(t) && UniqueLayerIds(t)
    requires img.tag == Image && n in t.elems
    ensures var t' := Append(t, ROOT, img);
      && LayersHaveIds(t')
      && Visible(RecreateView(t', t.next, VisibleLayerIds(t)), n) == Visible(t, n)
    decreases n
  {
    var t' := Append(t, ROOT, img);
    var ids := VisibleLayerIds(t);
    assert LayersHaveIds(t') by {
      forall m | m in t'.elems && IsLayer(t'.elems[m]) ensures Attr(t'.elems[m], "id").Some? {
        assert m != t.next;
      }
    }
    var v := RecreateView(t', t.next, ids);
    RecreateViewElement(t', t.next, ids, n);
    assert n != t.next;
    if IsLayer(t.elems[n]) {
      VisibleLayerIdsExact(t, n);
      assert LayerId(t', n) == LayerId(t, n);
      WithDisplayShows(t.elems[n], LayerId(t, n) in ids);
    }
    if n != ROOT {
      var q := t.elems[n].parent.value;
      RecreateSeesCreation(t, img, q);
      assert v.elems[n].parent == Some(q);
    }
  }

  /** The inset image itself is hidden while it is re-rendered. */
  lemma RecreateHidesImage(t: Tree, image: Node, ids: set<string>)
    requires WellFormed(t) && LayersHaveIds(t) && image in t.elems && !IsLayer(t.elems[image])
    ensures !Visible(RecreateView(t, image, ids), image)
  {
    RecreateViewElement(t, image, ids, image);
    WithDisplayShows(t.elems[image], false);
  }
}
