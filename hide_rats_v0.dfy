/** The first rat hider: every selected element is moved to a random spot inside the
    rat boundary, retrying while the spot overlaps one of the marked exclusions. Random
    draws come from `unit`, which stands for the successive values of `random.random()`;
    the bounding boxes of elements are given as inputs, since computing them is geometry
    the model does not cover. */
module HideRatsV0 {
  import opened Wrappers
  import opened Bounds

  /** The default of `randomize_position`'s `max_tries`. */
  const MAX_TRIES: nat := 32

  /** Where a rat went: its new box, how many candidates were drawn, and whether the
      search gave up (the "Can not find non-excluded location" message). */
  datatype Placement = Placement(box: Box, tries: nat, gaveUp: bool)

  /** `random.uniform(lo, hi)` for the draw `u` of `random.random()`. */
  function Uniform(lo: real, hi: real, u: real): real {
    lo + (hi - lo) * u
  }

  /** `any(new_bbox.overlaps(excl) for excl in exclusions)`. */
  predicate HitsAny(b: Box, exclusions: seq<Box>) {
    exists i | 0 <= i < |exclusions| :: Overlaps(b, exclusions[i])
  }

  /** A candidate: the element's box moved to the point of `[xmin, max(xmax - width, xmin)]
      x [ymin, max(ymax - height, ymin)]` that the draws `u` and `v` select. */
  function Candidate(el: Box, bbox: Box, u: real, v: real): Box {
    var xmax := Max(bbox.xmax - Width(el), bbox.xmin);
    var ymax := Max(bbox.ymax - Height(el), bbox.ymin);
    MovedTo(el, Uniform(bbox.xmin, xmax, u), Uniform(bbox.ymin, ymax, v))
  }

  /** The `n`-th candidate (counting from 1), drawn with the draws `start + 2(n-1)` and
      the one after. */
  function NthCandidate(el: Box, bbox: Box, unit: nat -> real, start: nat, n: nat): Box
    requires n >= 1
  {
    Candidate(el, bbox, unit(start + 2 * (n - 1)), unit(start + 2 * (n - 1) + 1))
  }

  /** The retry loop from candidate `n` on: stop at the first candidate clear of every
      exclusion, or give up at the first that overlaps once `n > max_tries`. */
  function Placed(el: Box, bbox: Box, exclusions: seq<Box>, maxTries: nat, unit: nat -> real, start: nat, n: nat): Placement
    requires 1 <= n <= maxTries + 1
    decreases maxTries + 1 - n
  {
    var c := NthCandidate(el, bbox, unit, start, n);
    if !HitsAny(c, exclusions) then Placement(c, n, false)
    else if n > maxTries then Placement(c, n, true)
    else Placed(el, bbox, exclusions, maxTries, unit, start, n + 1)
  }

  /** `randomize_position(el, bbox, exclusions, max_tries)`: the `for n in count(1)` loop.
      The translation back into the element's own coordinates is left to the caller. */
  method RandomizePosition(el: Box, bbox: Box, exclusions: seq<Box>, maxTries: nat, unit: nat -> real, start: nat)
    returns (p: Placement)
    ensures p == Placed(el, bbox, exclusions, maxTries, unit, start, 1)
  {
    var xmax := Max(bbox.xmax - Width(el), bbox.xmin);
    var ymax := Max(bbox.ymax - Height(el), bbox.ymin);
    var n := 1;
    while true
      invariant 1 <= n <= maxTries + 1
      invariant Placed(el, bbox, exclusions, maxTries, unit, start, n) == Placed(el, bbox, exclusions, maxTries, unit, start, 1)
      decreases maxTries + 1 - n
    {
      var x := Uniform(bbox.xmin, xmax, unit(start + 2 * (n - 1)));
      var y := Uniform(bbox.ymin, ymax, unit(start + 2 * (n - 1) + 1));
      var newBox := MovedTo(el, x, y);
      assert newBox == NthCandidate(el, bbox, unit, start, n);
      if !HitsAny(newBox, exclusions) {
        return Placement(newBox, n, false);
      } else if n > maxTries {
        return Placement(newBox, n, true);
      }
      n := n + 1;
    }
  }

  /** The search draws between 1 and `max_tries + 1` candidates; it stops clear of every
      exclusion unless it gave up, and it gives up only after the last allowed candidate
      also overlapped. Every candidate before the chosen one overlapped an exclusion. */
  lemma {:induction false} PlacedOutcome(el: Box, bbox: Box, exclusions: seq<Box>, maxTries: nat, unit: nat -> real, start: nat, n: nat)
    requires 1 <= n <= maxTries + 1
    ensures var p := Placed(el, bbox, exclusions, maxTries, unit, start, n);
      && n <= p.tries <= maxTries + 1
      && p.box == NthCandidate(el, bbox, unit, start, p.tries)
      && (p.gaveUp <==> HitsAny(p.box, exclusions))
      && (p.gaveUp ==> p.tries == maxTries + 1)
      && (forall k | n <= k < p.tries :: HitsAny(NthCandidate(el, bbox, unit, start, k), exclusions))
    decreases maxTries + 1 - n
  {
    var c := NthCandidate(el, bbox, unit, start, n);
    if HitsAny(c, exclusions) && n <= maxTries {
      PlacedOutcome(el, bbox, exclusions, maxTries, unit, start, n + 1);
    }
  }

  /** With draws in `[0, 1)`, a candidate's lower corner lies in the clamped range
      `xmin <= x <= max(xmax - width, xmin)`, and likewise for `y`. */
  lemma CandidateInRange(el: Box, bbox: Box, u: real, v: real)
    requires 0.0 <= u < 1.0 && 0.0 <= v < 1.0
    ensures bbox.xmin <= Candidate(el, bbox, u, v).xmin <= Max(bbox.xmax - Width(el), bbox.xmin)
    ensures bbox.ymin <= Candidate(el, bbox, u, v).ymin <= Max(bbox.ymax - Height(el), bbox.ymin)
  {
    UniformBetween(bbox.xmin, Max(bbox.xmax - Width(el), bbox.xmin), u);
    UniformBetween(bbox.ymin, Max(bbox.ymax - Height(el), bbox.ymin), v);
  }

  /** An element that fits inside a well-formed boundary lands inside it. */
  lemma CandidateInside(el: Box, bbox: Box, u: real, v: real)
    requires 0.0 <= u < 1.0 && 0.0 <= v < 1.0
    requires WellFormed(bbox) && Width(el) <= Width(bbox) && Height(el) <= Height(bbox)
    ensures Within(Candidate(el, bbox, u, v), bbox)
  {
    CandidateInRange(el, bbox, u, v);
  }

  /** `random.uniform(lo, hi)` with a draw in `[0, 1)` lies between its bounds. */
  lemma UniformBetween(lo: real, hi: real, u: real)
    requires lo <= hi && 0.0 <= u < 1.0
    ensures lo <= Uniform(lo, hi, u) <= hi
  {
    var a := hi - lo;
    NonNegativeProduct(a, u);
    NonNegativeProduct(a, 1.0 - u);
    assert a - a * u == a * (1.0 - u);
  }

  lemma NonNegativeProduct(a: real, b: real)
    requires 0.0 <= a && 0.0 <= b
    ensures 0.0 <= a * b
  {
  }

  // ---- the extension ----

  /** How the extension fails: `svg.attrib['width']` or `['height']` on a root without
      that attribute, or `bounds(None)` for an element with no geometry. */
  datatype Exc = KeyError | TypeError

  /** `get_page_boundary`: `(0, width, 0, height)` in user units; the unit conversion of the
      root's `width` and `height` is done by the caller. */
  function PageBoundary(width: real, height: real): Box {
    Box(0.0, width, 0.0, height)
  }

  /** What `get_boundary` gives: the union of the marked boxes, or else the page, whose
      size is read from the root's `width` and `height` (`None` when the attribute is
      missing, which raises `KeyError`). */
  function Boundary(boxes: seq<Option<Box>>, width: Option<real>, height: Option<real>): Result<Box, Exc> {
    if UnionAll(boxes).Some? then Success(UnionAll(boxes).value)
    else if width.None? || height.None? then Failure(KeyError)
    else Success(PageBoundary(width.value, height.value))
  }

  /** `get_boundary`: the union of the boxes of the `bh:rat-boundary` elements (a `None`
      box is an element with no geometry), or the page when there is none; the page size
      is read only then, so a missing `width` or `height` matters only then. */
  method GetBoundary(boxes: seq<Option<Box>>, width: Option<real>, height: Option<real>) returns (r: Result<Box, Exc>)
    ensures r == Boundary(boxes, width, height)
    ensures UnionAll(boxes).Some? ==> r == Success(UnionAll(boxes).value)
    ensures UnionAll(boxes).None? && width.Some? && height.Some? ==> r == Success(PageBoundary(width.value, height.value))
    ensures r.Failure? <==> UnionAll(boxes).None? && (width.None? || height.None?)
    ensures r.Failure? ==> r.error == KeyError
  {
    var acc: Option<Box> := None;
    for i := 0 to |boxes|
      invariant acc == UnionAll(boxes[..i])
    {
      assert boxes[..i + 1][..i] == boxes[..i];
      acc := Union(acc, boxes[i]);
    }
    assert boxes[..|boxes|] == boxes;
    if acc.None? {
      if width.None? || height.None? {
        return Failure(KeyError);
      }
      acc := Some(PageBoundary(width.value, height.value));
    }
    var b := New([Tuple([acc.value.xmin, acc.value.xmax, acc.value.ymin, acc.value.ymax])]);
    r := Success(b.value);
  }

  /** The boundary contains every marked box, and is the page exactly when no marked
      element has a box. */
  lemma BoundaryContainsMarked(boxes: seq<Option<Box>>, width: real, height: real, i: nat)
    requires i < |boxes| && boxes[i].Some?
    ensures UnionAll(boxes).Some?
    ensures Within(boxes[i].value, UnionAll(boxes).value)
  {
    UnionAllBounds(boxes);
  }

  /** The boxes of the `bh:rat-exclusion` elements, in document order. */
  function Exclusions(boxes: seq<Option<Box>>): (r: Result<seq<Box>, Exc>)
    ensures r.Success? <==> forall i | 0 <= i < |boxes| :: boxes[i].Some?
    ensures r.Success? ==> |r.value| == |boxes| && forall i | 0 <= i < |boxes| :: r.value[i] == boxes[i].value
    ensures r.Failure? ==> r.error == TypeError
  {
    if boxes == [] then Success([])
    else if boxes[|boxes| - 1].None? then Failure(TypeError)
    else match Exclusions(boxes[..|boxes| - 1])
      case Failure(e) => Failure(e)
      case Success(init) => Success(init + [boxes[|boxes| - 1].value])
  }

  /** `get_exclusions`: the loop appending `bounds(bbox)` for each marked element. */
  method GetExclusions(boxes: seq<Option<Box>>) returns (r: Result<seq<Box>, Exc>)
    ensures r == Exclusions(boxes)
  {
    var acc: seq<Box> := [];
    for i := 0 to |boxes|
      invariant Exclusions(boxes[..i]) == Success(acc)
    {
      assert boxes[..i + 1][..i] == boxes[..i];
      var b := New([Tuple(if boxes[i].Some? then [boxes[i].value.xmin, boxes[i].value.xmax, boxes[i].value.ymin, boxes[i].value.ymax] else [])]);
      if b.None? {
        assert boxes[i].None? && !(forall j | 0 <= j < |boxes| :: boxes[j].Some?);
        assert Exclusions(boxes).Failure?;
        assert Exclusions(boxes).error == TypeError;
        return Failure(TypeError);
      }
      acc := acc + [b.value];
    }
    assert boxes[..|boxes|] == boxes;
    return Success(acc);
  }

  /** The number of draws the placements used: two per candidate. */
  function Draws(ps: seq<Placement>): nat {
    if ps == [] then 0 else Draws(ps[..|ps| - 1]) + 2 * ps[|ps| - 1].tries
  }

  /** `effect`: the boundary (`KeyError` when nothing is marked and the root lacks a size)
      and the exclusions are computed once, and every selected
      element is placed against that same exclusion list; a rat already placed is not
      added to it. `selected` holds the box of each selected element, `None` for one with
      no geometry: `bounds(None)` in `randomize_position` raises `TypeError` before any
      draw, and the rats moved before it stay moved. `placed` lists the rats moved, and
      `r` says whether the extension ran to the end. */
  method Effect(selected: seq<Option<Box>>, boundaryBoxes: seq<Option<Box>>, exclusionBoxes: seq<Option<Box>>,
                width: Option<real>, height: Option<real>, unit: nat -> real)
    returns (placed: seq<Placement>, r: Result<(), Exc>)
    ensures Boundary(boundaryBoxes, width, height).Failure? ==> r == Failure(KeyError) && placed == []
    ensures Boundary(boundaryBoxes, width, height).Success? && Exclusions(exclusionBoxes).Failure? ==>
      r == Failure(TypeError) && placed == []
    ensures Boundary(boundaryBoxes, width, height).Success? && Exclusions(exclusionBoxes).Success? ==>
      && |placed| <= |selected|
      && (forall i | 0 <= i < |placed| ::
            && selected[i].Some?
            && placed[i] == Placed(selected[i].value, Boundary(boundaryBoxes, width, height).value,
                                   Exclusions(exclusionBoxes).value, MAX_TRIES, unit, Draws(placed[..i]), 1))
      && (|placed| < |selected| ==> selected[|placed|].None? && r == Failure(TypeError))
      && (|placed| == |selected| ==> r.Success?)
    ensures r.Success? <==>
      && Boundary(boundaryBoxes, width, height).Success? && Exclusions(exclusionBoxes).Success?
      && forall i | 0 <= i < |selected| :: selected[i].Some?
  {
    var boundary := GetBoundary(boundaryBoxes, width, height);
    if boundary.Failure? {
      return [], Failure(boundary.error);
    }
    var bbox := boundary.value;
    var exclusions := GetExclusions(exclusionBoxes);
    if exclusions.Failure? {
      return [], Failure(exclusions.error);
    }
    placed := [];
    var next := 0;
    for i := 0 to |selected|
      invariant |placed| == i && next == Draws(placed)
      invariant forall k | 0 <= k < i ::
        selected[k].Some? && placed[k] == Placed(selected[k].value, bbox, exclusions.value, MAX_TRIES, unit, Draws(placed[..k]), 1)
    {
      var el := New([Tuple(if selected[i].Some? then [selected[i].value.xmin, selected[i].value.xmax, selected[i].value.ymin, selected[i].value.ymax] else [])]);
      if el.None? {
        return placed, Failure(TypeError);
      }
      var p := RandomizePosition(el.value, bbox, exclusions.value, MAX_TRIES, unit, next);
      var after := placed + [p];
      forall k | 0 <= k < i + 1
        ensures selected[k].Some? && after[k] == Placed(selected[k].value, bbox, exclusions.value, MAX_TRIES, unit, Draws(after[..k]), 1)
      {
        assert after[..k] == placed[..k];
      }
      assert after[..i] == placed;
      placed := after;
      next := next + 2 * p.tries;
    }
    return placed, Success(());
  }
}
