/** The first inset extension, `bh-create-inset.py` at the top of the repository. It
    renders a deep copy of the document, from which the inset image is removed and in which
    every layer that has an id is shown or hidden, instead of changing the live document
    for the duration of the export. */
module OldestInset {
  import opened Wrappers
  import opened Strings
  import opened Svg
  import opened Visibility
  import opened Process
  import opened Inset
  import Style
  import C = CreateInset
  import L = LegacyInset

  // ---- get_visible_layer_ids ----

  /** `svg:g[@id][@inkscape:groupmode='layer']`: a layer that carries an id. */
  predicate IdLayer(e: Element) {
    IsLayer(e) && Attr(e, "id").Some?
  }

  /** Every layer on the ancestor-or-self chain of `n` lacks `display:none`; other
      groups on the chain are not looked at. */
  predicate LineageVisible(t: Tree, n: Node)
    requires WellFormed(t) && n in t.elems
    decreases n
  {
    && (IsLayer(t.elems[n]) ==> Display(t.elems[n]) != Some("none"))
    && (n == ROOT || LineageVisible(t, t.elems[n].parent.value))
  }

  /** `get_visible_layer_ids(tree)`: the ids of the layers whose whole layer lineage is shown. */
  function LineageVisibleIds(t: Tree): set<string>
    requires WellFormed(t)
  {
    set n | n in t.elems && IdLayer(t.elems[n]) && LineageVisible(t, n) :: Attr(t.elems[n], "id").value
  }

  /** The ids recorded by this copy include those the later copies record: an element that
      is visible has, in particular, no hidden layer above it. */
  lemma {:induction false} VisibleIsLineageVisible(t: Tree, n: Node)
    requires WellFormed(t) && n in t.elems && Visible(t, n)
    ensures LineageVisible(t, n)
    decreases n
  {
    if n != ROOT {
      VisibleIsLineageVisible(t, t.elems[n].parent.value);
    }
  }

  lemma VisibleLayerIdsIncluded(t: Tree)
    requires WellFormed(t) && LayersHaveIds(t)
    ensures VisibleLayerIds(t) <= LineageVisibleIds(t)
  {
    forall x | x in VisibleLayerIds(t) ensures x in LineageVisibleIds(t) {
      var n :| n in t.elems && IsLayer(t.elems[n]) && Visible(t, n) && LayerId(t, n) == x;
      VisibleIsLineageVisible(t, n);
    }
  }

  /** A layer hidden only by an ordinary group is recorded here and not by the later copies:
      below the root, a group `g` with `display:none` that is not a layer, and inside it a
      layer with id `a`. */
  lemma HiddenGroupCounterexample(g: Element)
    requires g.parent == Some(ROOT) && !IsLayer(g) && Display(g) == Some("none")
    ensures var t := HiddenGroupTree(g);
      WellFormed(t) && LayersHaveIds(t) && "a" in LineageVisibleIds(t) && "a" !in VisibleLayerIds(t)
  {
    var t := HiddenGroupTree(g);
    HiddenGroupTreeShape(g);
    LayerAShown();
    assert LineageVisible(t, 1);
    assert LineageVisible(t, 2);
    assert !Visible(t, 2);
  }

  /** The root of the example: a plain document root without style. */
  const PLAIN_ROOT: Element := Element(Root, None, None, map[])

  /** The layer of the example: a layer with id `a` inside the group at node 1. */
  const LAYER_A: Element := Element(Group, Some(1), None, map["id" := Str("a"), "inkscape:groupmode" := Str("layer")])

  function HiddenGroupTree(g: Element): Tree {
    Tree(map[ROOT := PLAIN_ROOT, 1 := g, 2 := LAYER_A], 3)
  }

  lemma LayerAShown()
    ensures !IsLayer(PLAIN_ROOT) && Display(PLAIN_ROOT) == None
    ensures IdLayer(LAYER_A) && Attr(LAYER_A, "id") == Some("a") && IsName("a") && Display(LAYER_A) == None
  {
    assert Style.Parsed(None) == [];
    assert "id" != "inkscape:groupmode";
  }

  /** The example is a document whose only layer is node 2. */
  lemma HiddenGroupTreeShape(g: Element)
    requires g.parent == Some(ROOT) && !IsLayer(g)
    ensures var t := HiddenGroupTree(g);
      && WellFormed(t) && t.elems.Keys == {ROOT, 1, 2}
      && t.elems[ROOT] == PLAIN_ROOT && t.elems[1] == g && t.elems[2] == LAYER_A
      && (forall n | n in t.elems && IsLayer(t.elems[n]) :: n == 2)
      && LayersHaveIds(t)
  {
    LayerAShown();
  }

  /** Such a group exists: `elem.style["display"] = "none"` on a plain group. */
  lemma HiddenGroupExists()
    ensures var g := WithDisplay(Element(Group, Some(ROOT), None, map[]), false);
      g.parent == Some(ROOT) && !IsLayer(g) && Display(g) == Some("none")
  {
    WithDisplayShows(Element(Group, Some(ROOT), None, map[]), false);
  }

  /** `all(is_visible(lyr) for lyr in lineage)`, walking up the chain of parents. */
  method LineageShown(doc: Document, n: Node) returns (b: bool)
    requires doc.Valid() && n in doc.tree.elems
    ensures b == LineageVisible(doc.tree, n)
  {
    var t := doc.tree;
    var elem: Option<Node> := Some(n);
    while elem.Some?
      invariant elem.Some? ==> elem.value in t.elems
      invariant LineageVisible(t, n) == (elem.None? || LineageVisible(t, elem.value))
      decreases if elem.Some? then elem.value + 1 else 0
    {
      var e := t.elems[elem.value];
      if IsLayer(e) {
        var st := Style.ParseStyle(e.style);
        if Style.Get(st, "display") == Some("none") {
          return false;
        }
      }
      elem := e.parent;
    }
    return true;
  }

  /** The ids of the members of `s` that lie in `shown`, gathered in order. */
  function IdsIn(t: Tree, s: seq<Node>, shown: set<Node>): set<string>
    requires forall k | 0 <= k < |s| :: s[k] in t.elems && Attr(t.elems[s[k]], "id").Some?
  {
    if s == [] then {}
    else
      var n := s[|s| - 1];
      IdsIn(t, s[..|s| - 1], shown) + if n in shown then {Attr(t.elems[n], "id").value} else {}
  }

  lemma IdsInStep(t: Tree, s: seq<Node>, shown: set<Node>, i: nat)
    requires forall k | 0 <= k < |s| :: s[k] in t.elems && Attr(t.elems[s[k]], "id").Some?
    requires i < |s|
    ensures IdsIn(t, s[..i + 1], shown)
         == IdsIn(t, s[..i], shown) + if s[i] in shown then {Attr(t.elems[s[i]], "id").value} else {}
  {
    TakeLast(s, i + 1);
  }

  /** The gathered ids are exactly those of the members of `s` that lie in `shown`. */
  lemma {:induction false} IdsInMembers(t: Tree, s: seq<Node>, shown: set<Node>, x: string)
    requires forall k | 0 <= k < |s| :: s[k] in t.elems && Attr(t.elems[s[k]], "id").Some?
    ensures x in IdsIn(t, s, shown) <==> exists k | 0 <= k < |s| :: s[k] in shown && Attr(t.elems[s[k]], "id").value == x
  {
    if s != [] {
      var p := s[..|s| - 1];
      IdsInMembers(t, p, shown, x);
      if x in IdsIn(t, p, shown) {
        var k :| 0 <= k < |p| && p[k] in shown && Attr(t.elems[p[k]], "id").value == x;
        assert p[k] == s[k];
      }
      if k :| 0 <= k < |s| && s[k] in shown && Attr(t.elems[s[k]], "id").value == x {
        if k < |p| {
          assert p[k] == s[k];
        }
      }
    }
  }

  /** The nodes whose layer lineage is shown. */
  function LineageVisibleNodes(t: Tree): (r: set<Node>)
    requires WellFormed(t)
    ensures forall n :: n in r <==> n in t.elems && LineageVisible(t, n)
  {
    set n | n in t.elems && LineageVisible(t, n)
  }

  /** `get_visible_layer_ids(tree)`: the layers with ids, then the loop over them. */
  method GetVisibleLayerIds(doc: Document) returns (ids: set<string>)
    requires doc.Valid()
    ensures ids == LineageVisibleIds(doc.tree)
  {
    var layers := All(doc.tree, IdLayer);
    LayerIdsGathered(doc.tree);
    ids := GatherShown(doc, layers);
  }

  /** The loop of `get_visible_layer_ids`: keeps the id of each layer whose lineage is shown. */
  method GatherShown(doc: Document, layers: seq<Node>) returns (ids: set<string>)
    requires doc.Valid()
    requires forall k | 0 <= k < |layers| :: layers[k] in doc.tree.elems && Attr(doc.tree.elems[layers[k]], "id").Some?
    ensures ids == IdsIn(doc.tree, layers, LineageVisibleNodes(doc.tree))
  {
    var t := doc.tree;
    ghost var shown := LineageVisibleNodes(t);
    ids := {};
    for i := 0 to |layers|
      invariant ids == IdsIn(t, layers[..i], shown)
    {
      var n := layers[i];
      IdsInStep(t, layers, shown, i);
      var b := LineageShown(doc, n);
      if b {
        ids := ids + {Attr(t.elems[n], "id").value};
      }
    }
    TakeAll(layers);
  }

  /** Gathering over the id-bearing layers yields `get_visible_layer_ids`. */
  lemma LayerIdsGathered(t: Tree)
    requires WellFormed(t)
    ensures var layers := All(t, IdLayer);
      && (forall k | 0 <= k < |layers| :: layers[k] in t.elems && Attr(t.elems[layers[k]], "id").Some?)
      && IdsIn(t, layers, LineageVisibleNodes(t)) == LineageVisibleIds(t)
  {
    var layers := All(t, IdLayer);
    var shown := LineageVisibleNodes(t);
    forall n ensures n in layers <==> n in t.elems && IdLayer(t.elems[n]) {
      AllMembers(t, IdLayer, n);
    }
    forall x ensures x in IdsIn(t, layers, shown) <==> x in LineageVisibleIds(t) {
      IdsInMembers(t, layers, shown, x);
      if x in LineageVisibleIds(t) {
        var n :| n in t.elems && IdLayer(t.elems[n]) && LineageVisible(t, n) && Attr(t.elems[n], "id").value == x;
        var k :| 0 <= k < |layers| && layers[k] == n;
      }
    }
  }

  /** With no two id-bearing layers sharing an id, a layer's id is recorded exactly when its
      lineage is shown. */
  lemma LineageVisibleIdsExact(t: Tree, n: Node)
    requires WellFormed(t) && n in t.elems && IdLayer(t.elems[n])
    requires forall m | m in t.elems && IdLayer(t.elems[m]) && m != n :: Attr(t.elems[m], "id") != Attr(t.elems[n], "id")
    ensures Attr(t.elems[n], "id").value in LineageVisibleIds(t) <==> LineageVisible(t, n)
  {
  }

  // ---- remove_element_by_id ----

  /** The elements that carry the id: what the XPath query on `@id=$elem_id` selects. */
  function Matches(t: Tree, id: string): (r: set<Node>)
    ensures forall n :: n in r <==> n in t.elems && HasId(t.elems[n], id)
  {
    set n | n in t.elems && HasId(t.elems[n], id) :: n
  }

  /** `remove_element_by_id(tree, elem_id)`: every element carrying the id leaves the tree
      with its subtree. The root has no parent, so when it carries the id the first
      `getparent().remove` fails and nothing is removed. */
  method RemoveElementById(doc: Document, id: string) returns (r: Result<(), Exc>)
    requires doc.Valid()
    modifies doc
    ensures doc.Valid()
    ensures r.Failure? <==> HasId(old(doc.tree).elems[ROOT], id)
    ensures r.Failure? ==> r.error == AttributeError("remove") && doc.tree == old(doc.tree)
    ensures r.Success? ==> doc.tree == RemoveSubtrees(old(doc.tree), In(Matches(old(doc.tree), id)))
  {
    var matches := All(doc.tree, e => HasId(e, id));
    MatchesListed(doc.tree, id);
    r := RemoveEach(doc, matches);
  }

  /** The query's result lists exactly the matching elements, the root (the first node in
      document order) only at its head. */
  lemma MatchesListed(t: Tree, id: string)
    requires WellFormed(t)
    ensures var s := All(t, e => HasId(e, id));
      && (forall k | 0 <= k < |s| :: s[k] in t.elems)
      && (forall k | 0 < k < |s| :: s[k] != ROOT)
      && Members(s) == Matches(t, id)
      && (|s| > 0 && s[0] == ROOT <==> HasId(t.elems[ROOT], id))
  {
    var s := All(t, e => HasId(e, id));
    forall n ensures n in s <==> n in t.elems && HasId(t.elems[n], id) {
      AllMembers(t, e => HasId(e, id), n);
    }
    if |s| > 0 {
      assert forall j | 0 < j < |s| :: s[0] < s[j];
    }
    if HasId(t.elems[ROOT], id) {
      assert ROOT in s;
    }
  }

  /** The loop of `remove_element_by_id`: `getparent().remove(elem)` for each listed node, in
      order. A node already gone with an earlier subtree is detached from a detached parent,
      which leaves the document as it is. */
  method RemoveEach(doc: Document, matches: seq<Node>) returns (r: Result<(), Exc>)
    requires doc.Valid()
    requires forall k | 0 <= k < |matches| :: matches[k] in doc.tree.elems
    requires forall k | 0 < k < |matches| :: matches[k] != ROOT
    modifies doc
    ensures doc.Valid()
    ensures r.Failure? <==> |matches| > 0 && matches[0] == ROOT
    ensures r.Failure? ==> r.error == AttributeError("remove") && doc.tree == old(doc.tree)
    ensures r.Success? ==> doc.tree == RemoveSubtrees(old(doc.tree), In(Members(matches)))
  {
    var t := doc.tree;
    RemoveNone(t);
    assert Members(matches[..0]) == {};
    for i := 0 to |matches|
      invariant doc.Valid()
      invariant ROOT !in matches[..i]
      invariant doc.tree == RemoveSubtrees(t, In(Members(matches[..i])))
    {
      var m := matches[i];
      if m == ROOT {
        return Failure(AttributeError("remove"));
      }
      MembersOneMore(matches, i);
      RemoveOneMore(t, Members(matches[..i]), m);
      if m in doc.tree.elems {
        doc.Remove(m);
      }
    }
    TakeAll(matches);
    r := Success(());
  }

  /** The nodes listed in `s`. */
  function Members(s: seq<Node>): set<Node> {
    set k | k in s
  }

  lemma MembersOneMore(s: seq<Node>, i: nat)
    requires i < |s|
    ensures Members(s[..i + 1]) == Members(s[..i]) + {s[i]}
  {
    TakeLast(s, i + 1);
  }

  /** After the removal no element carries the id, and nothing else is changed. */
  lemma RemovedById(t: Tree, id: string)
    requires WellFormed(t) && !HasId(t.elems[ROOT], id)
    ensures var r := RemoveSubtrees(t, In(Matches(t, id)));
      && (forall n | n in r.elems :: !HasId(r.elems[n], id))
      && r.elems.Keys <= t.elems.Keys
      && (forall n | n in r.elems :: r.elems[n] == t.elems[n])
  {
  }

  // ---- adjust_layer_visibility ----

  /** One layer after `adjust_layer_visibility`: a layer with an id is shown exactly when
      its id is among `ids`; every other element is left alone. */
  function Adjust(e: Element, ids: set<string>): (r: Element)
    ensures r.tag == e.tag && r.parent == e.parent && r.attrs == e.attrs
  {
    if IdLayer(e) then WithDisplay(e, Attr(e, "id").value in ids) else e
  }

  /** The whole document after `adjust_layer_visibility(tree, ids)`. */
  function Adjusted(t: Tree, ids: set<string>): (r: Tree)
    requires WellFormed(t)
    ensures WellFormed(r) && r.elems.Keys == t.elems.Keys && r.next == t.next
  {
    Tree(map n | n in t.elems :: Adjust(t.elems[n], ids), t.next)
  }

  /** In the adjusted document every layer with an id shows as its id says, and every
      other element, and every attribute, is as it was. */
  lemma AdjustedShows(t: Tree, ids: set<string>, n: Node)
    requires WellFormed(t) && n in t.elems
    ensures var e, e' := t.elems[n], Adjusted(t, ids).elems[n];
      && e'.attrs == e.attrs && e'.parent == e.parent
      && (IdLayer(e) ==> Display(e') == Some(if Attr(e, "id").value in ids then "inline" else "none"))
      && (!IdLayer(e) ==> e' == e)
  {
    var e := t.elems[n];
    if IdLayer(e) {
      WithDisplayShows(e, Attr(e, "id").value in ids);
    }
  }

  /** `adjust_layer_visibility(tree, visible_layer_ids)`: the layers with ids, then the
      loop over them. */
  method AdjustLayerVisibility(doc: Document, ids: set<string>)
    requires doc.Valid()
    modifies doc
    ensures doc.Valid() && doc.tree == Adjusted(old(doc.tree), ids)
  {
    ghost var t := doc.tree;
    var layers := All(doc.tree, IdLayer);
    AdjustEach(doc, layers, ids);
    AdjustedAll(t, ids, doc.tree);
  }

  /** The loop of `adjust_layer_visibility`: parse each layer's style with `Style`, set
      `display` and write the style back. */
  method AdjustEach(doc: Document, layers: seq<Node>, ids: set<string>)
    requires doc.Valid()
    requires forall k | 0 <= k < |layers| :: layers[k] in doc.tree.elems && IdLayer(doc.tree.elems[layers[k]])
    requires forall j, k | 0 <= j < k < |layers| :: layers[j] < layers[k]
    modifies doc
    ensures doc.Valid() && doc.tree.elems.Keys == old(doc.tree).elems.Keys && doc.tree.next == old(doc.tree).next
    ensures forall n | n in old(doc.tree).elems ::
      doc.tree.elems[n] == if n in layers then Adjust(old(doc.tree).elems[n], ids) else old(doc.tree).elems[n]
  {
    var t := doc.tree;
    for i := 0 to |layers|
      invariant doc.Valid() && doc.tree.elems.Keys == t.elems.Keys && doc.tree.next == t.next
      invariant AdjustedUpTo(t, ids, layers[..i], doc.tree)
    {
      var n := layers[i];
      assert n !in layers[..i];
      ghost var cur := doc.tree;
      var e := doc.tree.elems[n];
      var st := Style.ParseStyle(e.style);
      var visible := Attr(e, "id").value in ids;
      st := Style.Put(st, "display", if visible then "inline" else "none");
      AdjustByStyle(e, ids);
      doc.SetStyle(n, Some(Style.Serialise(st)));
      AdjustStep(t, ids, layers, i, cur, doc.tree);
    }
    TakeAll(layers);
  }

  /** `cur` is `t` with exactly the layers in `done` adjusted. */
  ghost predicate AdjustedUpTo(t: Tree, ids: set<string>, done: seq<Node>, cur: Tree)
    requires cur.elems.Keys == t.elems.Keys
  {
    forall n | n in t.elems :: cur.elems[n] == (if n in done then Adjust(t.elems[n], ids) else t.elems[n])
  }

  /** What the loop body writes into a layer with an id is `Adjust` of it. */
  lemma AdjustByStyle(e: Element, ids: set<string>)
    requires IdLayer(e)
    ensures Adjust(e, ids) == e.(style := Some(Style.Serialise(Style.Put(Style.Parsed(e.style), "display",
      if Attr(e, "id").value in ids then "inline" else "none"))))
  {
  }

  /** One turn of the loop of `adjust_layer_visibility` adjusts one more layer. */
  lemma AdjustStep(t: Tree, ids: set<string>, layers: seq<Node>, i: nat, cur: Tree, next: Tree)
    requires WellFormed(t) && WellFormed(cur) && i < |layers| && layers[i] in t.elems
    requires layers[i] !in layers[..i]
    requires cur.elems.Keys == t.elems.Keys && AdjustedUpTo(t, ids, layers[..i], cur)
    requires next.elems == cur.elems[layers[i] := Adjust(t.elems[layers[i]], ids)]
    ensures next.elems.Keys == t.elems.Keys && AdjustedUpTo(t, ids, layers[..i + 1], next)
  {
    TakeLast(layers, i + 1);
    var n := layers[i];
    forall m | m in t.elems
      ensures next.elems[m] == (if m in layers[..i + 1] then Adjust(t.elems[m], ids) else t.elems[m])
    {
      if m != n {
        assert m in layers[..i + 1] <==> m in layers[..i];
      }
    }
  }

  /** A document that is adjusted at every layer with an id is the adjusted document. */
  lemma AdjustedAll(t: Tree, ids: set<string>, cur: Tree)
    requires WellFormed(t) && cur.elems.Keys == t.elems.Keys && cur.next == t.next
    requires AdjustedUpTo(t, ids, All(t, IdLayer), cur)
    ensures cur == Adjusted(t, ids)
  {
    var adjusted := Adjusted(t, ids);
    forall n | n in t.elems ensures cur.elems[n] == adjusted.elems[n] {
      AdjustedAllAt(t, ids, cur, n);
    }
    SameTree(cur, adjusted);
  }

  lemma AdjustedAllAt(t: Tree, ids: set<string>, cur: Tree, n: Node)
    requires WellFormed(t) && cur.elems.Keys == t.elems.Keys && n in t.elems
    requires AdjustedUpTo(t, ids, All(t, IdLayer), cur)
    ensures cur.elems[n] == Adjusted(t, ids).elems[n]
  {
    AllMembers(t, IdLayer, n);
    AdjustedAt(t, ids, n);
  }

  lemma AdjustedAt(t: Tree, ids: set<string>, n: Node)
    requires WellFormed(t) && n in t.elems
    ensures Adjusted(t, ids).elems[n] == Adjust(t.elems[n], ids)
  {
  }

  // ---- export_png ----

  /** The PNG file as read back: a file that was never written is the empty file that
      `tempfile.mkstemp` created. */
  function Contents(file: Option<seq<byte>>): (r: seq<byte>)
    ensures file.Some? ==> r == file.value
    ensures file.None? ==> r == []
  {
    if file.Some? then file.value else []
  }

  /** `export_png(tree, export_id)`: render through Inkscape, whose failure is fatal, then,
      when the level is not negative, through optipng, whose failure is reported and
      ignored; the file is then read back whatever optipng did to it. A missing program
      raises, because nothing catches the `OSError` of `check_output`. Python 2 raises a
      plain `OSError` with `errno` `ENOENT` there; the model calls it `FileNotFoundError`,
      the name Python 3 gives the same error, which the later copies raise. */
  function Export(tools: Tools, verbose: bool, t: Tree, exportId: string, o: PngOptions): (r: Outcome<seq<byte>>)
  {
    var (p, rendered) := tools.render(Request(t, exportId, o));
    var inkscape := RunChecked(INKSCAPE, tools.found(INKSCAPE), p, verbose, false);
    if inkscape.result.Failure? then Outcome(inkscape.msgs, Failure(inkscape.result.error))
    else if !Optimises(o) then Outcome(inkscape.msgs, Success(Contents(rendered)))
    else
      var (q, optimised) := tools.optimise(rendered, o.optipngLevel.value);
      var optipng := RunChecked(OPTIPNG, tools.found(OPTIPNG), q, verbose, true);
      if optipng.result.Failure? then Outcome(inkscape.msgs + optipng.msgs, Failure(optipng.result.error))
      else Outcome(inkscape.msgs + optipng.msgs, Success(Contents(optimised)))
  }

  /** When the export stops, and what it returns otherwise. */
  lemma ExportContract(tools: Tools, verbose: bool, t: Tree, exportId: string, o: PngOptions)
    ensures var r := Export(tools, verbose, t, exportId, o);
      var (p, rendered) := tools.render(Request(t, exportId, o));
      var (q, optimised) := tools.optimise(rendered, o.optipngLevel.GetOr(0));
      && (!tools.found(INKSCAPE) ==> r == Outcome([], Failure(Raise(FileNotFoundError))))
      && (tools.found(INKSCAPE) && p.status != 0 ==> r == Outcome(FailureReport(INKSCAPE, p), Failure(Exit(1))))
      && (r.result.Failure? <==> !tools.found(INKSCAPE) || p.status != 0 || (Optimises(o) && !tools.found(OPTIPNG)))
      && (r.result.Success? && !Optimises(o) ==> r.result.value == Contents(rendered))
      && (r.result.Success? && Optimises(o) ==> r.result.value == Contents(optimised))
      && (r.result.Success? && Optimises(o) && q.status != 0 ==> FailureReport(OPTIPNG, q) <= r.msgs[|r.msgs| - |FailureReport(OPTIPNG, q)|..])
  {
    var r := Export(tools, verbose, t, exportId, o);
    var (p, rendered) := tools.render(Request(t, exportId, o));
    var (q, optimised) := tools.optimise(rendered, o.optipngLevel.GetOr(0));
    if r.result.Success? && Optimises(o) && q.status != 0 {
      var inkscape := RunChecked(INKSCAPE, tools.found(INKSCAPE), p, verbose, false);
      assert r.msgs == inkscape.msgs + FailureReport(OPTIPNG, q);
      assert r.msgs[|r.msgs| - |FailureReport(OPTIPNG, q)|..] == FailureReport(OPTIPNG, q);
    }
  }

  /** `png_dimensions(png_data)` and the scaling by `96.0 / dpi`, after the export. */
  function Sized(x: Outcome<seq<byte>>, dpi: real): (r: Outcome<(seq<byte>, real, real)>)
    ensures r.msgs == x.msgs
    ensures r.result.Success? <==> x.result.Success? && EmbeddedSize(x.result.value, dpi).Success?
    ensures r.result.Success? ==>
      r.result.value.0 == x.result.value && EmbeddedSize(x.result.value, dpi) == Success((r.result.value.1, r.result.value.2))
    ensures x.result.Failure? ==> r.result == Failure(x.result.error)
    ensures x.result.Success? && EmbeddedSize(x.result.value, dpi).Failure? ==>
      r.result == Failure(Raise(EmbeddedSize(x.result.value, dpi).error))
  {
    match x.result
    case Failure(h) => Outcome(x.msgs, Failure(h))
    case Success(data) =>
      match EmbeddedSize(data, dpi)
      case Failure(exc) => Outcome(x.msgs, Failure(Raise(exc)))
      case Success((w, h)) => Outcome(x.msgs, Success((data, w, h)))
  }

  // ---- the recreation branch of effect ----

  /** The copy that is rendered: without the elements carrying the image's id, and with
      each layer that has an id shown exactly when the id was stored. */
  function View(t: Tree, id: string, ids: set<string>): Tree
    requires WellFormed(t) && !HasId(t.elems[ROOT], id)
  {
    Adjusted(RemoveSubtrees(t, In(Matches(t, id))), ids)
  }

  /** What the renderer is shown: the image is gone, and each remaining layer with an id
      is displayed exactly when its id is stored. */
  lemma ViewShows(t: Tree, image: Node, ids: set<string>, n: Node)
    requires WellFormed(t) && image in t.elems && Attr(t.elems[image], "id").Some?
    requires !HasId(t.elems[ROOT], Attr(t.elems[image], "id").value)
    ensures var v := View(t, Attr(t.elems[image], "id").value, ids);
      && image !in v.elems
      && (n in v.elems ==> n in t.elems && v.elems[n].attrs == t.elems[n].attrs)
      && (n in v.elems && IdLayer(t.elems[n]) ==>
            Display(v.elems[n]) == Some(if Attr(t.elems[n], "id").value in ids then "inline" else "none"))
  {
    var id := Attr(t.elems[image], "id").value;
    var r := RemoveSubtrees(t, In(Matches(t, id)));
    if n in r.elems {
      AdjustedShows(r, ids, n);
    }
  }

  /** The selected element as `effect` reads it: it is selected by its id. */
  predicate Selectable(t: Tree, n: Node) {
    WellFormed(t) && n in t.elems && Attr(t.elems[n], "id").Some?
  }

  /** The recreation branch of `effect`: what it reports and the live document after it.
      The copy is never written back; only the image in the live document gets the new
      rendering and its size. */
  function Recreation(tools: Tools, verbose: bool, t: Tree, image: Node, o: PngOptions): (Outcome<()>, Tree)
    requires Selectable(t, image) && Attr(t.elems[image], EXPORT_ID).Some?
  {
    var e := t.elems[image];
    var id := Attr(e, "id").value;
    if HasId(t.elems[ROOT], id) then (Outcome([], Failure(Raise(AttributeError("remove")))), t)
    else
      var x := Sized(Export(tools, verbose, View(t, id, ReadVisibleLayers(e)), Attr(e, EXPORT_ID).value, o), o.dpi);
      (Outcome(x.msgs, if x.result.Success? then Success(()) else Failure(x.result.error)), C.Refill(t, image, x.result))
  }

  /** Recreating changes only the image, and nothing when it stops. */
  lemma RecreationRefreshes(tools: Tools, verbose: bool, t: Tree, image: Node, o: PngOptions)
    requires Selectable(t, image) && Attr(t.elems[image], EXPORT_ID).Some?
    ensures var (r, after) := Recreation(tools, verbose, t, image, o);
      && C.Refreshed(t, after, [image])
      && (r.result.Failure? ==> after == t)
  {
    var e := t.elems[image];
    var id := Attr(e, "id").value;
    if !HasId(t.elems[ROOT], id) {
      var x := Sized(Export(tools, verbose, View(t, id, ReadVisibleLayers(e)), Attr(e, EXPORT_ID).value, o), o.dpi);
      C.RefillRefreshes(t, image, x.result);
    }
  }

  /** A recreation that goes through leaves the image showing the new PNG at its size. */
  lemma RecreationShows(tools: Tools, verbose: bool, t: Tree, image: Node, o: PngOptions)
    requires Selectable(t, image) && Attr(t.elems[image], EXPORT_ID).Some?
    ensures var (r, after) := Recreation(tools, verbose, t, image, o);
      r.result.Success? ==> image in after.elems && ShowsPng(after.elems[image], o.dpi)
  {
    var e := t.elems[image];
    var id := Attr(e, "id").value;
    if !HasId(t.elems[ROOT], id) {
      RefilledShows(t, image, Export(tools, verbose, View(t, id, ReadVisibleLayers(e)), Attr(e, EXPORT_ID).value, o), o.dpi);
    }
  }

  /** Filling the image in from a sized export shows that PNG at its size. */
  lemma RefilledShows(t: Tree, image: Node, x: Outcome<seq<byte>>, dpi: real)
    requires WellFormed(t) && image in t.elems
    ensures var s := Sized(x, dpi);
      s.result.Success? ==> image in C.Refill(t, image, s.result).elems && ShowsPng(C.Refill(t, image, s.result).elems[image], dpi)
  {
    var s := Sized(x, dpi);
    if s.result.Success? {
      var (data, w, h) := s.result.value;
      C.RefillRefreshes(t, image, s.result);
      assert C.Refill(t, image, s.result).elems[image] == WithImageData(t.elems[image], data, w, h);
    }
  }

  /** The recreation branch, in place: the copy is built and rendered, then the image in the
      live document is filled in. */
  method Recreate(doc: Document, tools: Tools, verbose: bool, image: Node, o: PngOptions) returns (r: Outcome<()>)
    requires doc.Valid() && Selectable(doc.tree, image) && Attr(doc.tree.elems[image], EXPORT_ID).Some?
    modifies doc
    ensures (r, doc.tree) == Recreation(tools, verbose, old(doc.tree), image, o)
  {
    var t := doc.tree;
    var e := t.elems[image];
    var id := Attr(e, "id").value;
    var exportId := Attr(e, EXPORT_ID).value;
    var ids := ReadVisibleLayers(e);
    var copy := new Document(t);
    var removed := RemoveElementById(copy, id);
    if removed.Failure? {
      return Outcome([], Failure(Raise(removed.error)));
    }
    AdjustLayerVisibility(copy, ids);
    var x := Sized(Export(tools, verbose, copy.tree, exportId, o), o.dpi);
    if x.result.Failure? {
      return Outcome(x.msgs, Failure(x.result.error));
    }
    var (data, w, h) := x.result.value;
    doc.SetElement(image, WithImageData(e, data, w, h));
    r := Outcome(x.msgs, Success(()));
  }

  // ---- the creation branch of effect ----

  /** The literal style of a new inset, `image-rendering:optimizeQuality`. */
  const QUALITY: string := Style.DeclText((C.IMAGE_RENDERING, "optimizeQuality"))

  /** The image the creation branch appends: position, style and provenance first, then the
      PNG and its size. No `preserveAspectRatio` is set. */
  function NewInset(exportId: string, text: string, data: seq<byte>, w: real, h: real, center: (real, real)): Element {
    var attrs := map["x" := Num(center.0 - w / 2.0), "y" := Num(center.1 - h / 2.0),
                     EXPORT_ID := Str(exportId), VISIBLE_LAYERS := Str(text)];
    WithImageData(Element(Image, None, Some(QUALITY), attrs), data, w, h)
  }

  /** The literal style is the one the later copies reach by setting `image-rendering` on an
      element without style, and it reads back as `optimizeQuality`. */
  lemma QualityStyle()
    ensures Style.SetProperty(None, C.IMAGE_RENDERING, "optimizeQuality") == QUALITY
    ensures Style.Get(Style.Parsed(Some(QUALITY)), C.IMAGE_RENDERING) == Some("optimizeQuality")
  {
    assert Style.Put([], C.IMAGE_RENDERING, "optimizeQuality") == [(C.IMAGE_RENDERING, "optimizeQuality")];
    assert Style.DeclTexts([(C.IMAGE_RENDERING, "optimizeQuality")]) == [QUALITY];
    C.PlacedRendersQuality(Element(Image, None, None, map[]), 0.0, 0.0);
  }

  /** A new inset records the export id and the stored layers, shows its PNG, is centred on
      the view and leaves the aspect ratio to the SVG default. */
  lemma NewInsetCreated(exportId: string, text: string, ids: set<string>, data: seq<byte>, w: real, h: real, center: (real, real), dpi: real)
    requires Enumerates(Words(text), ids) && (text == "" <==> ids == {})
    requires EmbeddedSize(data, dpi) == Success((w, h))
    ensures var img := NewInset(exportId, text, data, w, h, center).(parent := Some(ROOT));
      && C.CreatedInset(img, exportId, ids, dpi)
      && C.CenteredAt(img, center)
      && "preserveAspectRatio" !in img.attrs
  {
    var img := NewInset(exportId, text, data, w, h, center).(parent := Some(ROOT));
    NewInsetAttrs(exportId, text, data, w, h, center);
    ProvenanceRead(img, text, ids);
  }

  /** A new inset is drawn with `image-rendering:optimizeQuality`. */
  lemma NewInsetRendersQuality(exportId: string, text: string, data: seq<byte>, w: real, h: real, center: (real, real))
    ensures Style.Get(Style.Parsed(NewInset(exportId, text, data, w, h, center).style), C.IMAGE_RENDERING) == Some("optimizeQuality")
  {
    QualityStyle();
  }

  lemma NewInsetAttrs(exportId: string, text: string, data: seq<byte>, w: real, h: real, center: (real, real))
    ensures var r := NewInset(exportId, text, data, w, h, center);
      && r.attrs.Keys == {"x", "y", EXPORT_ID, VISIBLE_LAYERS, HREF, "width", "height"}
      && "preserveAspectRatio" !in r.attrs
      && r.attrs[EXPORT_ID] == Str(exportId) && r.attrs[VISIBLE_LAYERS] == Str(text)
      && r.attrs[HREF] == PngUrl(data) && r.attrs["width"] == Num(w) && r.attrs["height"] == Num(h)
      && r.attrs["x"] == Num(center.0 - w / 2.0) && r.attrs["y"] == Num(center.1 - h / 2.0)
  {
    AttrNamesDistinct();
  }

  /** Layer ids that are XML names: not empty and without white space. */
  predicate IdsAreNames(t: Tree) {
    forall n | n in t.elems && IdLayer(t.elems[n]) :: IsName(Attr(t.elems[n], "id").value)
  }

  /** The creation branch of `effect`: record the shown layers, export the selected element
      from the live document and append a new image to the root. */
  method Create(doc: Document, tools: Tools, verbose: bool, n: Node, o: PngOptions, center: (real, real))
    returns (r: Outcome<()>)
    requires doc.Valid() && Selectable(doc.tree, n) && IdsAreNames(doc.tree)
    modifies doc
    ensures var x := Sized(Export(tools, verbose, old(doc.tree), Attr(old(doc.tree).elems[n], "id").value, o), o.dpi);
      && r.msgs == x.msgs
      && (x.result.Failure? ==> r.result == Failure(x.result.error) && doc.tree == old(doc.tree))
      && (x.result.Success? ==> r.result == Success(()))
    ensures r.result.Success? ==> old(doc.tree).next in doc.tree.elems
    ensures r.result.Success? ==> var t, img := old(doc.tree), doc.tree.elems[old(doc.tree).next];
      && doc.tree == Append(t, ROOT, img)
      && C.CreatedInset(img, Attr(t.elems[n], "id").value, LineageVisibleIds(t), o.dpi)
      && C.CenteredAt(img, center)
      && "preserveAspectRatio" !in img.attrs
  {
    var t := doc.tree;
    var exportId := Attr(t.elems[n], "id").value;
    var ids := GetVisibleLayerIds(doc);
    var x := Sized(Export(tools, verbose, t, exportId, o), o.dpi);
    if x.result.Failure? {
      return Outcome(x.msgs, Failure(x.result.error));
    }
    var (data, w, h) := x.result.value;
    var text := JoinIds(ids);
    var img := NewInset(exportId, text, data, w, h, center);
    NewInsetCreated(exportId, text, ids, data, w, h, center, o.dpi);
    var k := doc.AppendChild(ROOT, img);
    r := Outcome(x.msgs, Success(()));
  }

  // ---- effect ----

  /** `CreateInset.effect()`: exactly one element must be selected. An image with an export
      id is recreated from its provenance; any other element becomes the export node of a
      new inset. */
  method Effect(doc: Document, tools: Tools, selection: seq<Node>, opts: C.Options, center: (real, real))
    returns (r: Outcome<()>)
    requires doc.Valid() && IdsAreNames(doc.tree)
    requires forall n | n in selection :: n in doc.tree.elems && Attr(doc.tree.elems[n], "id").Some?
    modifies doc
    ensures |selection| != 1 ==> r == Outcome([SelectExactlyOne], Failure(Exit(1))) && doc.tree == old(doc.tree)
    ensures |selection| == 1 && L.IsInset(old(doc.tree).elems[selection[0]]) ==>
      (r, doc.tree) == Recreation(tools, opts.verbose, old(doc.tree), selection[0], C.PngOptionsOf(opts.dpi, opts.scale, opts.background, opts.opacity, opts.optipngLevel))
    ensures |selection| == 1 && !L.IsInset(old(doc.tree).elems[selection[0]]) && r.result.Success? ==>
      var t := old(doc.tree);
      && t.next in doc.tree.elems && doc.tree == Append(t, ROOT, doc.tree.elems[t.next])
      && C.CreatedInset(doc.tree.elems[t.next], Attr(t.elems[selection[0]], "id").value, LineageVisibleIds(t), opts.dpi)
    ensures |selection| == 1 && !L.IsInset(old(doc.tree).elems[selection[0]]) ==>
      var t, o := old(doc.tree), C.PngOptionsOf(opts.dpi, opts.scale, opts.background, opts.opacity, opts.optipngLevel);
      var x := Sized(Export(tools, opts.verbose, t, Attr(t.elems[selection[0]], "id").value, o), o.dpi);
      && r.msgs == x.msgs
      && (x.result.Failure? ==> r.result == Failure(x.result.error) && doc.tree == t)
      && (x.result.Success? ==> r.result == Success(()))
  {
    var o := C.PngOptionsOf(opts.dpi, opts.scale, opts.background, opts.opacity, opts.optipngLevel);
    if |selection| != 1 {
      return Outcome([SelectExactlyOne], Failure(Exit(1)));
    }
    var n := selection[0];
    if L.IsInset(doc.tree.elems[n]) {
      r := Recreate(doc, tools, opts.verbose, n, o);
    } else {
      r := Create(doc, tools, opts.verbose, n, o, center);
    }
  }
}
