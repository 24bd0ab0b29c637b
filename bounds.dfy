/** Axis-aligned boxes in page coordinates: the `bounds` named tuple of the first rat
    hider, `(xmin, xmax, ymin, ymax)`, with its closed-interval overlap test, and the
    union of boxes that both rat hiders use for the placement boundary. */
module Bounds {
  import opened Wrappers

  datatype Box = Box(xmin: real, xmax: real, ymin: real, ymax: real)

  /** One argument to `bounds(*args)`: a number, or a tuple of numbers. */
  datatype Arg = Num(r: real) | Tuple(items: seq<real>)

  /** `bounds(*args)`: a single argument is unpacked first, then exactly four numbers
      are needed; anything else raises `TypeError` (`None` here). Python's namedtuple
      would also take four arguments one of which is a tuple; no caller passes that, so
      refusing it changes nothing the model covers. */
  function New(args: seq<Arg>): (r: Option<Box>)
    ensures r.Some? ==> |args| == 4 || |args| == 1
  {
    if |args| == 1 then
      if args[0].Tuple? && |args[0].items| == 4 then
        var t := args[0].items;
        Some(Box(t[0], t[1], t[2], t[3]))
      else None
    else if |args| == 4 && args[0].Num? && args[1].Num? && args[2].Num? && args[3].Num? then
      Some(Box(args[0].r, args[1].r, args[2].r, args[3].r))
    else None
  }

  /** Four numbers and one 4-tuple of them build the same box, with the fields in order. */
  lemma NewForms(x0: real, x1: real, y0: real, y1: real)
    ensures New([Num(x0), Num(x1), Num(y0), Num(y1)]) == Some(Box(x0, x1, y0, y1))
    ensures New([Tuple([x0, x1, y0, y1])]) == Some(Box(x0, x1, y0, y1))
  {
  }

  /** A lone number, or a tuple of other than four, is refused. */
  lemma NewRefuses(x: real, t: seq<real>)
    ensures New([Num(x)]) == None
    ensures |t| != 4 ==> New([Tuple(t)]) == None
  {
  }

  function Width(b: Box): real {
    b.xmax - b.xmin
  }

  function Height(b: Box): real {
    b.ymax - b.ymin
  }

  /** The box with its lower corner at `(x, y)` and the size of `b`. */
  function MovedTo(b: Box, x: real, y: real): (r: Box)
    ensures Width(r) == Width(b) && Height(r) == Height(b)
    ensures r.xmin == x && r.ymin == y
  {
    Box(x, x + Width(b), y, y + Height(b))
  }

  /** `bounds.overlaps`: the closed intervals intersect on both axes. */
  predicate Overlaps(a: Box, b: Box) {
    a.xmin <= b.xmax && a.ymin <= b.ymax && b.xmin <= a.xmax && b.ymin <= a.ymax
  }

  predicate WellFormed(b: Box) {
    b.xmin <= b.xmax && b.ymin <= b.ymax
  }

  /** The point lies in the closed box. */
  predicate Inside(b: Box, x: real, y: real) {
    b.xmin <= x <= b.xmax && b.ymin <= y <= b.ymax
  }

  lemma OverlapsSymmetric(a: Box, b: Box)
    ensures Overlaps(a, b) <==> Overlaps(b, a)
  {
  }

  /** A box overlaps itself exactly when it is well formed. */
  lemma OverlapsSelf(a: Box)
    ensures Overlaps(a, a) <==> WellFormed(a)
  {
  }

  /** For well-formed boxes, overlapping is sharing a point of the closed boxes, so boxes
      that only touch along an edge or at a corner overlap. */
  lemma OverlapsIffSharedPoint(a: Box, b: Box)
    requires WellFormed(a) && WellFormed(b)
    ensures Overlaps(a, b) <==> exists x: real, y: real :: Inside(a, x, y) && Inside(b, x, y)
  {
    if Overlaps(a, b) {
      var x := if a.xmin < b.xmin then b.xmin else a.xmin;
      var y := if a.ymin < b.ymin then b.ymin else a.ymin;
      assert Inside(a, x, y) && Inside(b, x, y);
    }
  }

  /** Boxes that touch along an edge overlap. */
  lemma TouchingOverlaps(a: Box, b: Box)
    requires WellFormed(a) && WellFormed(b)
    requires a.xmax == b.xmin && a.ymin <= b.ymax && b.ymin <= a.ymax
    ensures Overlaps(a, b)
  {
  }

  // ---- unions ----

  /** `c` contains `b`. */
  predicate Within(b: Box, c: Box) {
    c.xmin <= b.xmin && b.xmax <= c.xmax && c.ymin <= b.ymin && b.ymax <= c.ymax
  }

  function Min(a: real, b: real): real {
    if a <= b then a else b
  }

  function Max(a: real, b: real): real {
    if a <= b then b else a
  }

  /** The smallest box containing both: `boxunion`, and `BoundingBox.__add__`. */
  function Hull(a: Box, b: Box): (r: Box)
    ensures Within(a, r) && Within(b, r)
    ensures forall c: Box :: Within(a, c) && Within(b, c) ==> Within(r, c)
  {
    Box(Min(a.xmin, b.xmin), Max(a.xmax, b.xmax), Min(a.ymin, b.ymin), Max(a.ymax, b.ymax))
  }

  /** `simpletransform.boxunion(a, b)`: a missing box (`None`) is ignored. */
  function Union(a: Option<Box>, b: Option<Box>): Option<Box> {
    match a
    case None => b
    case Some(x) => if b.None? then a else Some(Hull(x, b.value))
  }

  /** The loop `bbox = boxunion(bbox, el_bbox)` from `bbox = None`, left to right. */
  function UnionAll(boxes: seq<Option<Box>>): Option<Box> {
    if boxes == [] then None else Union(UnionAll(boxes[..|boxes| - 1]), boxes[|boxes| - 1])
  }

  /** The union is missing exactly when every box is, contains every box present, and lies
      within any box that contains them all. */
  lemma {:induction false} UnionAllBounds(boxes: seq<Option<Box>>)
    ensures UnionAll(boxes).None? <==> forall i | 0 <= i < |boxes| :: boxes[i].None?
    ensures forall i | 0 <= i < |boxes| && boxes[i].Some? :: Within(boxes[i].value, UnionAll(boxes).value)
    ensures forall c: Box :: UnionAll(boxes).Some? && (forall i | 0 <= i < |boxes| && boxes[i].Some? :: Within(boxes[i].value, c)) ==> Within(UnionAll(boxes).value, c)
  {
    if boxes != [] {
      var init := boxes[..|boxes| - 1];
      UnionAllBounds(init);
      assert forall i | 0 <= i < |init| :: init[i] == boxes[i];
    }
  }

  /** `reduce(add, bboxes)` over at least one box. */
  function HullAll(boxes: seq<Box>): Box
    requires boxes != []
  {
    if |boxes| == 1 then boxes[0] else Hull(HullAll(boxes[..|boxes| - 1]), boxes[|boxes| - 1])
  }

  /** The reduced box contains every box and lies within any box that contains them all. */
  lemma {:induction false} HullAllBounds(boxes: seq<Box>)
    requires boxes != []
    ensures forall i | 0 <= i < |boxes| :: Within(boxes[i], HullAll(boxes))
    ensures forall c: Box :: (forall i | 0 <= i < |boxes| :: Within(boxes[i], c)) ==> Within(HullAll(boxes), c)
  {
    if |boxes| > 1 {
      var init := boxes[..|boxes| - 1];
      HullAllBounds(init);
      assert forall i | 0 <= i < |init| :: init[i] == boxes[i];
    }
  }
}
