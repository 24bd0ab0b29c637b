/** The current rat hider: the selected rats are checked to sit together on one layer,
    the rat guide layer beside it is brought up to date, optionally the rat layer is
    cloned into a new blind, and each rat is moved to a random spot inside the rat
    boundary, avoiding the exclusions and every rat placed before it. Random draws come
    from `unit`, standing for the successive values of `random.random()`; the bounding
    boxes of elements are inputs. */
module HideRats {
  import opened Wrappers
  import opened Strings
  import opened Bounds
  import V0 = HideRatsV0
  import XPathQuote
  import Xml
  import RatClone
  import RatLayerName

  /** The default of `random_position`'s `max_tries`. */
  const MAX_TRIES: nat := 128

  /** `BadRats`, with its message, and the errors the extension does not catch. */
  datatype BadRats = FishyRats | NoRats | NotSameLayer | NotOnLayer
  datatype Exc = Reported(why: BadRats) | AttributeError | AssertionError | UnboundLocalError

  // ---- placing one rat ----

  /** The `for n in range(max_tries)` loop from candidate `n` (counting from 1): stop at the
      first candidate clear of every exclusion, or give up with the last one. */
  function Tried(el: Box, bbox: Box, exclusions: seq<Box>, maxTries: nat, unit: nat -> real, start: nat, n: nat): V0.Placement
    requires 1 <= n <= maxTries
    decreases maxTries - n
  {
    var c := V0.NthCandidate(el, bbox, unit, start, n);
    if !V0.HitsAny(c, exclusions) then V0.Placement(c, n, false)
    else if n == maxTries then V0.Placement(c, n, true)
    else Tried(el, bbox, exclusions, maxTries, unit, start, n + 1)
  }

  /** The search draws between 1 and `max_tries` candidates; it stops clear of every
      exclusion unless it gave up, it gives up only on the last allowed candidate, and every
      candidate before the chosen one overlapped an exclusion. */
  lemma {:induction false} TriedOutcome(el: Box, bbox: Box, exclusions: seq<Box>, maxTries: nat, unit: nat -> real, start: nat, n: nat)
    requires 1 <= n <= maxTries
    ensures var p := Tried(el, bbox, exclusions, maxTries, unit, start, n);
      && n <= p.tries <= maxTries
      && p.box == V0.NthCandidate(el, bbox, unit, start, p.tries)
      && (p.gaveUp <==> V0.HitsAny(p.box, exclusions))
      && (p.gaveUp ==> p.tries == maxTries)
      && (forall k | n <= k < p.tries :: V0.HitsAny(V0.NthCandidate(el, bbox, unit, start, k), exclusions))
    decreases maxTries - n
  {
    var c := V0.NthCandidate(el, bbox, unit, start, n);
    if V0.HitsAny(c, exclusions) && n < maxTries {
      TriedOutcome(el, bbox, exclusions, maxTries, unit, start, n + 1);
    }
  }

  /** Candidates that all overlap are passed over. */
  lemma {:induction false} TriedSkips(el: Box, bbox: Box, exclusions: seq<Box>, maxTries: nat, unit: nat -> real, start: nat, n: nat)
    requires 1 <= n <= maxTries
    requires forall k | 1 <= k < n :: V0.HitsAny(V0.NthCandidate(el, bbox, unit, start, k), exclusions)
    ensures Tried(el, bbox, exclusions, maxTries, unit, start, 1) == Tried(el, bbox, exclusions, maxTries, unit, start, n)
    decreases n
  {
    if n > 1 {
      TriedSkips(el, bbox, exclusions, maxTries, unit, start, n - 1);
    }
  }

  /** The older rat hider draws one candidate more: its search with `max_tries` is this one
      with `max_tries + 1`. */
  lemma {:induction false} OlderDrawsOneMore(el: Box, bbox: Box, exclusions: seq<Box>, maxTries: nat, unit: nat -> real, start: nat, n: nat)
    requires 1 <= n <= maxTries + 1
    ensures Tried(el, bbox, exclusions, maxTries + 1, unit, start, n) == V0.Placed(el, bbox, exclusions, maxTries, unit, start, n)
    decreases maxTries + 1 - n
  {
    if n <= maxTries {
      OlderDrawsOneMore(el, bbox, exclusions, maxTries, unit, start, n + 1);
    }
  }

  /** `RatPlacer.random_position(rat_bbox, max_tries)` with `place_rat`'s move of the rat to
      the returned position. With `max_tries == 0` the loop never binds `pos`, and
      `return pos` raises `UnboundLocalError`. */
  method RandomPosition(el: Box, bbox: Box, exclusions: seq<Box>, maxTries: nat, unit: nat -> real, start: nat)
    returns (r: Result<V0.Placement, Exc>)
    ensures maxTries == 0 ==> r == Failure(UnboundLocalError)
    ensures maxTries > 0 ==> r == Success(Tried(el, bbox, exclusions, maxTries, unit, start, 1))
  {
    var x0 := bbox.xmin;
    var x1 := Max(bbox.xmax - Width(el), x0);
    var y0 := bbox.ymin;
    var y1 := Max(bbox.ymax - Height(el), y0);
    var pos: Option<Box> := None;
    var n := 0;
    var clear := false;
    while n < maxTries && !clear
      invariant n <= maxTries
      invariant pos.None? <==> n == 0
      invariant pos.Some? ==> pos.value == V0.NthCandidate(el, bbox, unit, start, n)
      invariant clear <==> pos.Some? && !V0.HitsAny(pos.value, exclusions)
      invariant forall k | 1 <= k < n :: V0.HitsAny(V0.NthCandidate(el, bbox, unit, start, k), exclusions)
    {
      n := n + 1;
      var x := V0.Uniform(x0, x1, unit(start + 2 * (n - 1)));
      var y := V0.Uniform(y0, y1, unit(start + 2 * (n - 1) + 1));
      pos := Some(MovedTo(el, x, y));
      clear := !V0.HitsAny(pos.value, exclusions);
    }
    if pos.None? {
      return Failure(UnboundLocalError);
    }
    TriedSkips(el, bbox, exclusions, maxTries, unit, start, n);
    r := Success(V0.Placement(pos.value, n, !clear));
  }

  // ---- the guide layer ----

  const EXCLUSION := "exclusion"
  const NOTATION := "notation"
  /** `bh:rat-guide-mode`, which marks the guide layer and the mode of its rectangles. */
  const GUIDE_MODE := "bh:rat-guide-mode"

  /** An element of the guide layer: its box and its `bh:rat-guide-mode`, if any. */
  datatype GuideItem = GuideItem(box: Box, mode: Option<string>)

  /** The items whose mode is not `mode`, in order. */
  function Without(items: seq<GuideItem>, mode: string): seq<GuideItem> {
    if items == [] then []
    else (if items[0].mode == Some(mode) then [] else [items[0]]) + Without(items[1..], mode)
  }

  /** Removing the items of one mode keeps exactly the others. */
  lemma {:induction false} WithoutMembers(items: seq<GuideItem>, mode: string)
    ensures forall x :: x in Without(items, mode) <==> x in items && x.mode != Some(mode)
  {
    if items != [] {
      WithoutMembers(items[1..], mode);
      assert items == [items[0]] + items[1..];
    }
  }

  /** The items the guide's query picks up: those in `exclusion` mode anywhere in the
      guide layer, and those at its top level without a mode, which were drawn there by
      hand. */
  predicate Counted(x: GuideItem) {
    x.mode == Some(EXCLUSION) || x.mode.None?
  }

  /** The boxes of the counted items, in document order. */
  function CountedBoxes(items: seq<GuideItem>): (r: seq<Box>)
    ensures |r| <= |items|
  {
    if items == [] then []
    else
      var last := items[|items| - 1];
      CountedBoxes(items[..|items| - 1]) + (if Counted(last) then [last.box] else [])
  }

  /** Every counted item's box is among the counted boxes. */
  lemma {:induction false} CountedBoxesCover(items: seq<GuideItem>)
    ensures forall i | 0 <= i < |items| && Counted(items[i]) :: items[i].box in CountedBoxes(items)
  {
    if items != [] {
      var init := items[..|items| - 1];
      CountedBoxesCover(init);
      forall i | 0 <= i < |init| && Counted(items[i])
        ensures items[i].box in CountedBoxes(items)
      {
        assert items[i] == init[i];
      }
    }
  }

  /** The notation rectangles drawn for the given exclusions. */
  function Notes(boxes: seq<Box>): (r: seq<GuideItem>)
    ensures |r| == |boxes|
    ensures forall i | 0 <= i < |r| :: r[i] == GuideItem(boxes[i], Some(NOTATION))
  {
    seq(|boxes|, i requires 0 <= i < |boxes| => GuideItem(boxes[i], Some(NOTATION)))
  }

  /** `RatGuide`: the exclusions of the current placement run, and the elements of the
      guide layer, in document order. */
  class RatGuide {
    var exclusions: seq<Box>
    var items: seq<GuideItem>
    /** The guide layer was created, and appended to the parent layer. */
    var created: bool

    /** Every counted item of the guide layer is an exclusion of the run. */
    ghost predicate Valid()
      reads this
    {
      forall i | 0 <= i < |items| && Counted(items[i]) :: items[i].box in exclusions
    }

    /** `RatGuide(exclusions, parent_layer)`, where `existing` holds the elements of the
        guide layer found under the parent layer, if there is one: its old notation
        rectangles are deleted, one is drawn for each given exclusion, and the counted
        items are added to the exclusions. The assertion that the guide layer's composed
        transform is the identity is made by the caller, `Effect`, before the guide is
        built. */
    constructor(exclusions: seq<Box>, existing: Option<seq<GuideItem>>)
      ensures created == existing.None?
      ensures items == Without(existing.GetOr([]), NOTATION) + Notes(exclusions)
      ensures this.exclusions == exclusions + CountedBoxes(Without(existing.GetOr([]), NOTATION))
      ensures Valid()
    {
      this.exclusions := exclusions;
      items := existing.GetOr([]);
      created := existing.None?;
      new;
      if existing.Some? {
        DeleteRects(NOTATION);
      }
      var kept := items;
      for i := 0 to |exclusions|
        invariant items == kept + Notes(exclusions[..i])
        invariant this.exclusions == exclusions && created == existing.None?
      {
        assert Notes(exclusions[..i + 1]) == Notes(exclusions[..i]) + [GuideItem(exclusions[i], Some(NOTATION))];
        AddRect(exclusions[i], NOTATION);
      }
      TakeAll(exclusions);
      assert kept == Without(existing.GetOr([]), NOTATION) by {
        if existing.None? {
          assert existing.GetOr([]) == [];
        }
      }
      var found := CountedIn(items);
      NotesNotCounted(kept, exclusions);
      this.exclusions := this.exclusions + found;
      GuideValid(kept, exclusions, this.exclusions);
    }

    /** The loop over the query for counted items, appending each one's box. */
    static method CountedIn(items: seq<GuideItem>) returns (r: seq<Box>)
      ensures r == CountedBoxes(items)
    {
      r := [];
      for i := 0 to |items|
        invariant r == CountedBoxes(items[..i])
      {
        assert items[..i + 1][..i] == items[..i];
        if Counted(items[i]) {
          r := r + [items[i].box];
        }
      }
      TakeAll(items);
    }

    /** `_add_rect(bbox, mode)`: a rectangle of the box, in that mode, at the end of the
        guide layer. */
    method AddRect(b: Box, mode: string)
      modifies this
      ensures items == old(items) + [GuideItem(b, Some(mode))]
      ensures exclusions == old(exclusions) && created == old(created)
    {
      items := items + [GuideItem(b, Some(mode))];
    }

    /** `_delete_rects(mode)`: the elements whose mode equals the quoted literal are
        removed; the quoting reads back as `mode` itself, so these are the ones in `mode`. */
    method DeleteRects(mode: string)
      modifies this
      ensures items == Without(old(items), mode)
      ensures exclusions == old(exclusions) && created == old(created)
    {
      var literal := XPathQuote.Eval(XPathQuote.XpStr(mode));
      XPathQuote.EvalXpStr(mode);
      items := Without(items, literal.value);
    }

    /** `reset`: the exclusion rectangles of earlier runs are deleted. Their boxes were
        added to `exclusions` when the guide was built and stay there for this run. */
    method Reset()
      requires Valid()
      modifies this
      ensures items == Without(old(items), EXCLUSION)
      ensures exclusions == old(exclusions) && created == old(created)
      ensures Valid()
    {
      DeleteRects(EXCLUSION);
      WithoutMembers(old(items), EXCLUSION);
      forall i | 0 <= i < |items| && Counted(items[i])
        ensures items[i].box in exclusions
      {
        assert items[i] in old(items);
      }
    }

    /** `add_exclusion(bbox)`: an exclusion rectangle is drawn and the box joins the
        exclusions. */
    method AddExclusion(b: Box)
      requires Valid()
      modifies this
      ensures items == old(items) + [GuideItem(b, Some(EXCLUSION))]
      ensures exclusions == old(exclusions) + [b] && created == old(created)
      ensures Valid()
    {
      AddRect(b, EXCLUSION);
      exclusions := exclusions + [b];
    }
  }

  /** The notation rectangles are not counted. */
  lemma {:induction false} NotesNotCounted(kept: seq<GuideItem>, boxes: seq<Box>)
    ensures CountedBoxes(kept + Notes(boxes)) == CountedBoxes(kept)
  {
    if boxes != [] {
      var init := boxes[..|boxes| - 1];
      NotesNotCounted(kept, init);
      var all := kept + Notes(boxes);
      assert all[..|all| - 1] == kept + Notes(init);
    } else {
      assert kept + Notes(boxes) == kept;
    }
  }

  /** The guide as built is valid. */
  lemma GuideValid(kept: seq<GuideItem>, boxes: seq<Box>, exclusions: seq<Box>)
    requires exclusions == boxes + CountedBoxes(kept)
    ensures forall i | 0 <= i < |kept + Notes(boxes)| && Counted((kept + Notes(boxes))[i]) ::
      (kept + Notes(boxes))[i].box in exclusions
  {
    var items := kept + Notes(boxes);
    CountedBoxesCover(kept);
    forall i | 0 <= i < |items| && Counted(items[i])
      ensures items[i].box in exclusions
    {
      if i < |kept| {
        assert items[i] == kept[i];
        assert kept[i].box in CountedBoxes(kept);
      }
    }
  }

  /** Deleting one mode and then another deletes both, in either order. */
  lemma {:induction false} WithoutCommutes(items: seq<GuideItem>, a: string, b: string)
    ensures Without(Without(items, a), b) == Without(Without(items, b), a)
  {
    if items != [] {
      var x, rest := items[0], items[1..];
      WithoutCommutes(rest, a, b);
      assert items == [x] + rest;
      WithoutCons(x, rest, a);
      WithoutCons(x, rest, b);
      WithoutCons(x, Without(rest, a), b);
      WithoutCons(x, Without(rest, b), a);

    }
  }

  lemma WithoutCons(x: GuideItem, rest: seq<GuideItem>, mode: string)
    ensures x.mode == Some(mode) ==> Without([x] + rest, mode) == Without(rest, mode)
    ensures x.mode != Some(mode) ==> Without([x] + rest, mode) == [x] + Without(rest, mode)
  {
    assert ([x] + rest)[1..] == rest;
    assert [] + Without(rest, mode) == Without(rest, mode);
  }

  // ---- the boundary and the rat layer ----

  /** `get_rat_boundary`: the union of the boxes of the elements marked as the boundary,
      or the page when there is none. */
  function RatBoundary(marked: seq<Box>, page: Box): Box {
    if |marked| == 0 then page else HullAll(marked)
  }

  /** The boundary is the page when nothing is marked; otherwise it contains every marked
      box and lies within any box that contains them all. */
  lemma RatBoundaryBounds(marked: seq<Box>, page: Box)
    ensures marked == [] ==> RatBoundary(marked, page) == page
    ensures forall i | 0 <= i < |marked| :: Within(marked[i], RatBoundary(marked, page))
    ensures forall c: Box :: marked != [] && (forall i | 0 <= i < |marked| :: Within(marked[i], c)) ==> Within(RatBoundary(marked, page), c)
  {
    if marked != [] {
      HullAllBounds(marked);
    }
  }

  /** What the rat check sees of a selected element: whether it is an `svg:use`, its
      `xlink:href`, and the layer `containing_layer` finds for it, named by a number. */
  datatype Selected = Selected(isUse: bool, href: Option<string>, layer: Option<nat>)

  /** `tube` starts at `k` in `h`, with no line break before it for `.*` to stop at. */
  predicate TubeAt(h: string, k: nat) {
    k + 4 <= |h| && h[k..k + 4] == "tube" && '\n' !in h[..k]
  }

  /** `looks_like_rat`: a `use` whose href matches `#(rat|.*tube)` from its start. */
  predicate LooksLikeRat(e: Selected) {
    var h := e.href.GetOr("");
    e.isUse && |h| >= 1 && h[0] == '#' && (StartsWith(h[1..], "rat") || exists k | 0 <= k < |h| :: TubeAt(h[1..], k))
  }

  /** The layers containing the selected elements: `set(map(containing_layer, rats))`. */
  function Layers(rats: seq<Selected>): set<Option<nat>> {
    set i | 0 <= i < |rats| :: rats[i].layer
  }

  /** `find_rat_layer`: the checks in their order, then the one layer. */
  function FindRatLayer(rats: seq<Selected>): Result<nat, BadRats> {
    if !(forall i | 0 <= i < |rats| :: LooksLikeRat(rats[i])) then Failure(FishyRats)
    else if |Layers(rats)| == 0 then Failure(NoRats)
    else if |Layers(rats)| != 1 then Failure(NotSameLayer)
    else if rats[0].layer.None? then Failure(NotOnLayer)
    else Success(rats[0].layer.value)
  }

  /** One layer for all the rats, as a set of layers: it has exactly one element exactly
      when the selection is not empty and every rat has the first one's layer. */
  lemma LayersSingle(rats: seq<Selected>)
    ensures |Layers(rats)| == 0 <==> rats == []
    ensures |Layers(rats)| == 1 <==> rats != [] && forall i | 0 <= i < |rats| :: rats[i].layer == rats[0].layer
  {
    var ls := Layers(rats);
    if rats != [] {
      assert rats[0].layer in ls;
      if forall i | 0 <= i < |rats| :: rats[i].layer == rats[0].layer {
        assert ls == {rats[0].layer};
      } else {
        var i :| 0 <= i < |rats| && rats[i].layer != rats[0].layer;
        assert {rats[0].layer, rats[i].layer} <= ls;
        assert |{rats[0].layer, rats[i].layer}| == 2;
        SubsetSize({rats[0].layer, rats[i].layer}, ls);
      }
    }
  }

  lemma SubsetSize<T>(a: set<T>, b: set<T>)
    requires a <= b
    ensures |a| <= |b|
  {
    assert b == a + (b - a);
  }

  /** Each outcome of the rat check, by what the selection is like. */
  lemma FindRatLayerOutcomes(rats: seq<Selected>, l: nat)
    ensures FindRatLayer(rats) == Failure(FishyRats) <==> exists i | 0 <= i < |rats| :: !LooksLikeRat(rats[i])
    ensures FindRatLayer(rats) == Failure(NoRats) <==> (forall i | 0 <= i < |rats| :: LooksLikeRat(rats[i])) && rats == []
    ensures FindRatLayer(rats) == Failure(NotSameLayer) <==>
      (forall i | 0 <= i < |rats| :: LooksLikeRat(rats[i])) && exists i | 0 <= i < |rats| :: rats[i].layer != rats[0].layer
    ensures FindRatLayer(rats) == Failure(NotOnLayer) <==>
      (forall i | 0 <= i < |rats| :: LooksLikeRat(rats[i])) && rats != [] && forall i | 0 <= i < |rats| :: rats[i].layer.None?
    ensures FindRatLayer(rats) == Success(l) <==>
      (forall i | 0 <= i < |rats| :: LooksLikeRat(rats[i])) && rats != [] && forall i | 0 <= i < |rats| :: rats[i].layer == Some(l)
  {
    LayersSingle(rats);
  }

  // ---- the effect ----

  /** The boxes of the placed rats. */
  function BoxesOf(ps: seq<V0.Placement>): (r: seq<Box>)
    ensures |r| == |ps| && forall i | 0 <= i < |ps| :: r[i] == ps[i].box
  {
    seq(|ps|, i requires 0 <= i < |ps| => ps[i].box)
  }

  /** The exclusion rectangles drawn for the placed rats. */
  function Marks(ps: seq<V0.Placement>): (r: seq<GuideItem>)
    ensures |r| == |ps| && forall i | 0 <= i < |ps| :: r[i] == GuideItem(ps[i].box, Some(EXCLUSION))
  {
    seq(|ps|, i requires 0 <= i < |ps| => GuideItem(ps[i].box, Some(EXCLUSION)))
  }

  /** The first `|ps|` rats are each placed against the exclusions of the run and every rat
      placed before it, with the draws the earlier placements left. */
  ghost predicate PlacedSoFar(boxes: seq<Box>, bbox: Box, exclusions: seq<Box>, unit: nat -> real, ps: seq<V0.Placement>)
    decreases |ps|
  {
    |ps| <= |boxes| &&
    (ps == [] ||
     var init := ps[..|ps| - 1];
     PlacedSoFar(boxes, bbox, exclusions, unit, init) &&
     ps[|ps| - 1] == Tried(boxes[|ps| - 1], bbox, exclusions + BoxesOf(init), MAX_TRIES, unit, V0.Draws(init), 1))
  }

  /** Every rat is placed that way. */
  ghost predicate PlacedInTurn(boxes: seq<Box>, bbox: Box, exclusions: seq<Box>, unit: nat -> real, ps: seq<V0.Placement>) {
    |ps| == |boxes| && PlacedSoFar(boxes, bbox, exclusions, unit, ps)
  }

  /** Each rat placed so far, one by one. */
  lemma {:induction false} PlacedEach(boxes: seq<Box>, bbox: Box, exclusions: seq<Box>, unit: nat -> real, ps: seq<V0.Placement>, i: nat)
    requires PlacedSoFar(boxes, bbox, exclusions, unit, ps) && i < |ps|
    ensures ps[i] == Tried(boxes[i], bbox, exclusions + BoxesOf(ps[..i]), MAX_TRIES, unit, V0.Draws(ps[..i]), 1)
    decreases |ps|
  {
    var init := ps[..|ps| - 1];
    if i < |init| {
      PlacedEach(boxes, bbox, exclusions, unit, init, i);
      assert init[..i] == ps[..i];
    }
  }

  /** One more rat placed in turn. */
  lemma PlacedOneMore(boxes: seq<Box>, bbox: Box, exclusions: seq<Box>, unit: nat -> real, ps: seq<V0.Placement>, p: V0.Placement)
    requires PlacedSoFar(boxes, bbox, exclusions, unit, ps) && |ps| < |boxes|
    requires p == Tried(boxes[|ps|], bbox, exclusions + BoxesOf(ps), MAX_TRIES, unit, V0.Draws(ps), 1)
    ensures PlacedSoFar(boxes, bbox, exclusions, unit, ps + [p])
    ensures V0.Draws(ps + [p]) == V0.Draws(ps) + 2 * p.tries
    ensures BoxesOf(ps + [p]) == BoxesOf(ps) + [p.box]
    ensures Marks(ps + [p]) == Marks(ps) + [GuideItem(p.box, Some(EXCLUSION))]
  {
    assert (ps + [p])[..|ps|] == ps;
  }

  /** The loop of `_effect`: `hide_rat` against the guide's exclusions, then
      `add_exclusion` of the rat's new box. */
  method PlaceAll(guide: RatGuide, boxes: seq<Box>, bbox: Box, unit: nat -> real) returns (ps: seq<V0.Placement>)
    requires guide.Valid()
    modifies guide
    ensures PlacedInTurn(boxes, bbox, old(guide.exclusions), unit, ps)
    ensures guide.exclusions == old(guide.exclusions) + BoxesOf(ps)
    ensures guide.items == old(guide.items) + Marks(ps)
    ensures guide.created == old(guide.created) && guide.Valid()
  {
    ghost var excl0, items0 := guide.exclusions, guide.items;
    ps := [];
    var next := 0;
    for i := 0 to |boxes|
      invariant |ps| == i && next == V0.Draws(ps)
      invariant PlacedSoFar(boxes, bbox, excl0, unit, ps)
      invariant guide.exclusions == excl0 + BoxesOf(ps) && guide.items == items0 + Marks(ps)
      invariant guide.created == old(guide.created) && guide.Valid()
    {
      var r := RandomPosition(boxes[i], bbox, guide.exclusions, MAX_TRIES, unit, next);
      var p := r.value;
      guide.AddExclusion(p.box);
      PlacedOneMore(boxes, bbox, excl0, unit, ps, p);
      ps := ps + [p];
      next := next + 2 * p.tries;
    }
  }

  /** A rat that did not give up overlaps none of the run's exclusions and no rat placed
      before it. */
  lemma PlacementsAvoid(boxes: seq<Box>, bbox: Box, exclusions: seq<Box>, unit: nat -> real, ps: seq<V0.Placement>, i: nat)
    requires PlacedInTurn(boxes, bbox, exclusions, unit, ps)
    requires i < |ps| && !ps[i].gaveUp
    ensures forall j | 0 <= j < |exclusions| :: !Overlaps(ps[i].box, exclusions[j])
    ensures forall j | 0 <= j < i :: !Overlaps(ps[i].box, ps[j].box)
  {
    var seen := exclusions + BoxesOf(ps[..i]);
    PlacedEach(boxes, bbox, exclusions, unit, ps, i);
    TriedOutcome(boxes[i], bbox, seen, MAX_TRIES, unit, V0.Draws(ps[..i]), 1);
    assert !V0.HitsAny(ps[i].box, seen);
    forall j | 0 <= j < |exclusions|
      ensures !Overlaps(ps[i].box, exclusions[j])
    {
      assert seen[j] == exclusions[j];
    }
    forall j | 0 <= j < i
      ensures !Overlaps(ps[i].box, ps[j].box)
    {
      assert seen[|exclusions| + j] == ps[j].box;
    }
  }

  /** The guide layer's items once the guide is built: the old ones without their notation
      rectangles, then a notation rectangle per permanent exclusion. */
  function GuideBase(existing: Option<seq<GuideItem>>, permanent: seq<Box>): seq<GuideItem> {
    Without(existing.GetOr([]), NOTATION) + Notes(permanent)
  }

  /** The layer `RatGuide` creates when the parent layer holds no guide layer: a new layer
      labelled `[h] Rat Placement Guides`, locked, and marked as the guide layer. The
      rectangles later drawn in it are the guide's `items`. */
  function GuideLayer(): Xml.XNode {
    Xml.XNode(Xml.Group,
      map[RatClone.GROUPMODE := "layer", RatClone.LABEL := "[h] Rat Placement Guides",
          RatClone.INSENSITIVE := "true", GUIDE_MODE := "layer"],
      None, None, [])
  }

  /** The position of node `n` among the nodes `ns`. */
  function Position(ns: seq<nat>, n: nat): (k: nat)
    requires n in ns
    ensures k < |ns| && ns[k] == n && n !in ns[..k]
  {
    if ns[0] == n then 0
    else
      assert ns[1..][..Position(ns[1..], n)] == ns[1..Position(ns[1..], n) + 1];
      assert ns[..Position(ns[1..], n) + 1] == [ns[0]] + ns[1..Position(ns[1..], n) + 1];
      Position(ns[1..], n) + 1
  }

  /** The children of the rat layer's parent once the guide is built: the guide layer is
      appended to it when it is the containing layer and holds no guide layer yet. */
  function GuidedChildren(children: seq<Xml.XNode>, existing: Option<seq<GuideItem>>, guideInParent: bool): (r: seq<Xml.XNode>)
    ensures |children| <= |r| && r[..|children|] == children
    ensures existing.None? && guideInParent ==> r == children + [GuideLayer()]
    ensures !(existing.None? && guideInParent) ==> r == children
  {
    if existing.None? && guideInParent then children + [GuideLayer()] else children
  }

  /** `HideRats._effect`. The rats are checked (`BadRats` is reported); the guide is built
      over the layer containing the rat layer, which fails with `AttributeError` when there
      is none; with `restart` or `newblind` the old exclusion rectangles go; with `newblind`
      the rat layer is cloned; then the rats are placed in turn.
      `parent` holds the children of the rat layer's parent, and `nodes` names them, so the
      rat layer is the child whose node is the one `find_rat_layer` gives. `guideInParent`
      says that this parent is also the layer containing the rat layer (it is not when the
      rat layer sits in a plain group), so a newly created guide layer is appended to it.
      `existing` is the guide layer's content if the containing layer has one, and
      `guideAtIdentity` says that the guide layer's composed transform is the identity:
      `RatGuide` asserts it once the guide layer is found or created, so a transformed
      containing or guide layer stops the extension with `AssertionError`, which only
      `BadRats` is caught around. `permanent` holds the boxes of `find_exclusions`, `marked`
      the boundary boxes, and `boxes` the rats' boxes in the order the loop visits them,
      one per selected rat (or per clone, with `newblind`). */
  method Effect(rats: seq<Selected>, ratPaths: set<RatClone.Path>, hasParentLayer: bool, guideInParent: bool,
                existing: Option<seq<GuideItem>>, guideAtIdentity: bool, permanent: seq<Box>, restart: bool, newblind: bool,
                parent: RatClone.BlindParent, nodes: seq<nat>, marked: seq<Box>, page: Box, boxes: seq<Box>,
                unit: nat -> real)
    returns (r: Result<seq<V0.Placement>, Exc>, guide: RatGuide?)
    requires |nodes| == |parent.children| && |boxes| == |rats|
    requires FindRatLayer(rats).Success? ==> FindRatLayer(rats).value in nodes
    modifies parent
    ensures FindRatLayer(rats).Failure? ==>
      r == Failure(Reported(FindRatLayer(rats).error)) && guide == null && unchanged(parent)
    ensures FindRatLayer(rats).Success? && !hasParentLayer ==>
      r == Failure(AttributeError) && guide == null && unchanged(parent)
    ensures FindRatLayer(rats).Success? && hasParentLayer && !guideAtIdentity ==>
      && r == Failure(AssertionError) && guide == null
      && parent.children == GuidedChildren(old(parent.children), existing, guideInParent)
    ensures FindRatLayer(rats).Success? && hasParentLayer && guideAtIdentity ==>
      && r.Success? && |r.value| == |rats| && guide != null && fresh(guide)
      && var excl := permanent + CountedBoxes(Without(existing.GetOr([]), NOTATION));
      && var base := GuideBase(existing, permanent);
      && PlacedInTurn(boxes, RatBoundary(marked, page), excl, unit, r.value)
      && guide.exclusions == excl + BoxesOf(r.value)
      && guide.items == (if restart || newblind then Without(base, EXCLUSION) else base) + Marks(r.value)
      && guide.created == existing.None?
      && guide.Valid()
    ensures FindRatLayer(rats).Success? && hasParentLayer && guideAtIdentity ==>
      var k := Position(nodes, FindRatLayer(rats).value);
      var kids := GuidedChildren(old(parent.children), existing, guideInParent);
      parent.children ==
        if newblind then [RatClone.Labelled(RatClone.Clone(kids[k]), RatLayerName.NextName(RatClone.ChildLabels(kids)))]
                         + kids[k := RatClone.HiddenLocked(kids[k])]
        else kids
  {
    var layer := FindRatLayer(rats);
    if layer.Failure? {
      return Failure(Reported(layer.error)), null;
    }
    if !hasParentLayer {
      return Failure(AttributeError), null;
    }
    if existing.None? && guideInParent {
      parent.Append(GuideLayer());
    }
    if !guideAtIdentity {
      return Failure(AssertionError), null;
    }
    guide := new RatGuide(permanent, existing);
    if restart || newblind {
      guide.Reset();
    }
    if newblind {
      var k := Position(nodes, layer.value);
      var clones := parent.CloneRatLayer(k, ratPaths);
    }
    var bbox := RatBoundary(marked, page);
    var ps := PlaceAll(guide, boxes, bbox, unit);
    r := Success(ps);
  }
}
