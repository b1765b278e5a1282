/** The line-crossing counter of examples/modules/object_counter.py. A configured line splits the
    plane by the sign of an integer cross product; inside the line's bounding box, each tracked object
    remembers which side it was last seen on, and moving from one side to the other counts as
    crossing in or out. */
module LineCounter {
  import opened Wrappers
  import opened Points

  /** The configured line `[x1, y1, x2, y2]`, oriented from (x1, y1) to (x2, y2). */
  datatype Line = Line(x1: int, y1: int, x2: int, y2: int)

  /** A box `[x, y, w, h]`: top-left corner, width and height. */
  datatype Box = Box(x: int, y: int, w: int, h: int)

  /** The two crossing totals, `crossed_in` and `crossed_out`. */
  datatype Counts = Counts(crossedIn: nat, crossedOut: nat)

  /** The state `count` keeps in a tracked object: `counted`, and `is_in` (None while unknown). */
  datatype Mark = Mark(counted: bool, isIn: Option<bool>)

  /** A tracked object as `count` sees it: its centroid history and, once `count` has seen it,
      its mark. */
  datatype TrackedObject = TrackedObject(centroids: seq<Point>, mark: Option<Mark>)

  function Min(a: int, b: int): int
  {
    if a <= b then a else b
  }

  function Abs(a: int): nat
  {
    if a < 0 then -a else a
  }

  /** `self.bbox`: the two endpoints of the line are opposite corners of the box. */
  function BBox(l: Line): (b: Box)
    ensures b.w >= 0 && b.h >= 0
    ensures (b.x == l.x1 && b.x + b.w == l.x2) || (b.x == l.x2 && b.x + b.w == l.x1)
    ensures (b.y == l.y1 && b.y + b.h == l.y2) || (b.y == l.y2 && b.y + b.h == l.y1)
  {
    Box(Min(l.x1, l.x2), Min(l.y1, l.y2), Abs(l.x1 - l.x2), Abs(l.y1 - l.y2))
  }

  /** `rect_contains`: the point lies strictly inside the box on all four sides, which takes a box at
      least two pixels wide and two pixels tall. */
  predicate RectContains(b: Box, p: Point)
  {
    b.x < p.x < b.x + b.w && b.y < p.y < b.y + b.h
  }

  /** The box of a vertical line (or a horizontal one) contains no point at all, so such a line
      never counts anything; a box that contains a point is at least 2 wide and 2 tall. */
  lemma FlatLineContainsNothing(l: Line, p: Point)
    ensures RectContains(BBox(l), p) ==> BBox(l).w >= 2 && BBox(l).h >= 2
    ensures l.x1 == l.x2 || l.y1 == l.y2 ==> !RectContains(BBox(l), p)
  {
    if RectContains(BBox(l), p) {
      assert BBox(l).x + 1 <= p.x <= BBox(l).x + BBox(l).w - 1;
      assert BBox(l).y + 1 <= p.y <= BBox(l).y + BBox(l).h - 1;
    }
  }

  /** `cross_prod`: the cross product of the line's direction v1 = end - start with v2 = end - p. */
  function Cross(l: Line, p: Point): int
  {
    (l.x2 - l.x1) * (l.y2 - p.y) - (l.y2 - l.y1) * (l.x2 - p.x)
  }

  /** The sign of the cross product is a side of the line: both endpoints lie on it (0), moving a
      point along the line's direction keeps its value, and reversing the line negates it, so the
      two sides swap. */
  lemma CrossSides(l: Line, p: Point)
    ensures Cross(l, Point(l.x1, l.y1)) == 0 && Cross(l, Point(l.x2, l.y2)) == 0
    ensures Cross(l, Point(p.x + (l.x2 - l.x1), p.y + (l.y2 - l.y1))) == Cross(l, p)
    ensures Cross(Line(l.x2, l.y2, l.x1, l.y1), p) == -Cross(l, p)
  {
    var (dx, dy) := (l.x2 - l.x1, l.y2 - l.y1);
    assert Cross(l, Point(l.x1, l.y1)) == dx * dy - dy * dx;
    assert Cross(l, Point(p.x + dx, p.y + dy)) == dx * (l.y2 - p.y - dy) - dy * (l.x2 - p.x - dx);
    assert dx * (l.y2 - p.y - dy) == dx * (l.y2 - p.y) - dx * dy;
    assert dy * (l.x2 - p.x - dx) == dy * (l.x2 - p.x) - dy * dx;
    assert Cross(Line(l.x2, l.y2, l.x1, l.y1), p) == (-dx) * (l.y1 - p.y) - (-dy) * (l.x1 - p.x);
    assert (-dx) * (l.y1 - p.y) == -(dx * (l.y2 - p.y)) + dx * dy;
    assert (-dy) * (l.x1 - p.x) == -(dy * (l.x2 - p.x)) + dy * dx;
  }

  /** An object seen for the first time gets `counted` False and `is_in` None; a mark already there
      is kept. */
  function Initialized(o: TrackedObject): TrackedObject
  {
    if o.mark.None? then o.(mark := Some(Mark(false, None))) else o
  }

  /** One pass of the loop of `count` over the object `o`, with the line, its box and the totals so
      far; IndexError when the object has no centroid. */
  function Visit(l: Line, b: Box, o: TrackedObject, c: Counts): Result<(TrackedObject, Counts)>
  {
    var o := Initialized(o);
    if |o.centroids| == 0 then Err(IndexError)
    else
      var p := o.centroids[|o.centroids| - 1];
      if !RectContains(b, p) then Ok((o, c))
      else
        var cross := Cross(l, p);
        if !o.mark.value.counted then Ok((o.(mark := Some(Mark(true, Some(cross < 0)))), c))
        else
          var isIn := o.mark.value.isIn;
          var (isIn, c) := if isIn == Some(true) && cross >= 0
                           then (Some(false), c.(crossedOut := c.crossedOut + 1)) else (isIn, c);
          var (isIn, c) := if isIn == Some(false) && cross < 0
                           then (Some(true), c.(crossedIn := c.crossedIn + 1)) else (isIn, c);
          Ok((o.(mark := Some(o.mark.value.(isIn := isIn))), c))
  }

  /** The last centroid of a seen object, when it has one. */
  function LastCentroid(o: TrackedObject): Point
    requires |o.centroids| > 0
  {
    o.centroids[|o.centroids| - 1]
  }

  /** The marks `count` itself produces: `is_in` is known exactly when the object is counted. */
  predicate Consistent(o: TrackedObject)
  {
    o.mark.None? || (o.mark.value.counted <==> o.mark.value.isIn.Some?)
  }

  /** What one visit does: it fails exactly on an object without centroids; it keeps the centroids,
      leaves the object marked and consistent, and keeps an existing mark when the last centroid is
      outside the box; it adds at most one to one of the totals and lowers neither. */
  lemma VisitBasics(l: Line, b: Box, o: TrackedObject, c: Counts)
    requires Consistent(o)
    ensures Visit(l, b, o, c).Err? <==> |o.centroids| == 0
    ensures Visit(l, b, o, c).Err? ==> Visit(l, b, o, c).error == IndexError
    ensures Visit(l, b, o, c).Ok? ==>
              var (o2, c2) := Visit(l, b, o, c).value;
              && o2.centroids == o.centroids && o2.mark.Some? && Consistent(o2)
              && (!RectContains(b, LastCentroid(o)) ==> o2 == Initialized(o) && c2 == c)
              && c.crossedIn <= c2.crossedIn && c.crossedOut <= c2.crossedOut
              && c2.crossedIn + c2.crossedOut <= c.crossedIn + c.crossedOut + 1
  {
  }

  /** The first sighting inside the box marks the object counted, on the side the cross product
      gives (`is_in` True when negative), and counts nothing. */
  lemma VisitFirstSighting(l: Line, b: Box, o: TrackedObject, c: Counts)
    requires |o.centroids| > 0 && RectContains(b, LastCentroid(o))
    requires o.mark.None? || !o.mark.value.counted
    ensures Visit(l, b, o, c) == Ok((o.(mark := Some(Mark(true, Some(Cross(l, LastCentroid(o)) < 0)))), c))
  {
  }

  /** A later sighting inside the box of an object last on side `wasIn`: moving to the other side
      adds one to `crossed_out` (leaving the in side, a cross product >= 0) or to `crossed_in`
      (entering it, a cross product < 0) and records the new side; staying counts nothing. */
  lemma VisitLaterSighting(l: Line, b: Box, o: TrackedObject, c: Counts, wasIn: bool)
    requires |o.centroids| > 0 && RectContains(b, LastCentroid(o))
    requires o.mark == Some(Mark(true, Some(wasIn)))
    ensures var nowIn := Cross(l, LastCentroid(o)) < 0;
      Visit(l, b, o, c) == Ok((o.(mark := Some(Mark(true, Some(nowIn)))),
                               if wasIn == nowIn then c
                               else if wasIn then c.(crossedOut := c.crossedOut + 1)
                               else c.(crossedIn := c.crossedIn + 1)))
  {
  }

  /** Visiting an object a second time with the same last centroid changes neither the object nor
      the totals: only a move to the other side counts. */
  lemma VisitIdempotent(l: Line, b: Box, o: TrackedObject, c: Counts, c2: Counts)
    requires Consistent(o) && |o.centroids| > 0
    ensures Visit(l, b, o, c).Ok?
    ensures Visit(l, b, Visit(l, b, o, c).value.0, c2) == Ok((Visit(l, b, o, c).value.0, c2))
  {
  }

  /** The result of `count` over a list of objects: the objects with their new marks, the totals,
      and the error that stopped the loop, if any. */
  datatype Outcome = Outcome(objs: seq<TrackedObject>, counts: Counts, error: Option<Error>)

  /** The loop of `count`, object by object from the front; an error stops it with the failing
      object initialised and the objects after it untouched. */
  function CountAll(l: Line, b: Box, objs: seq<TrackedObject>, c: Counts): Outcome
    decreases |objs|
  {
    if |objs| == 0 then Outcome([], c, None)
    else
      var before := CountAll(l, b, objs[..|objs| - 1], c);
      var o := objs[|objs| - 1];
      if before.error.Some? then Outcome(before.objs + [o], before.counts, before.error)
      else
        match Visit(l, b, o, before.counts)
        case Ok((o2, c2)) => Outcome(before.objs + [o2], c2, None)
        case Err(e) => Outcome(before.objs + [Initialized(o)], before.counts, Some(e))
  }

  /** `count` keeps every object (and its centroids) in place, stops with IndexError exactly when
      some object has no centroid, and adds at most one crossing per object to the totals, lowering
      neither. */
  lemma {:induction false} CountAllBasics(l: Line, b: Box, objs: seq<TrackedObject>, c: Counts)
    requires forall k :: 0 <= k < |objs| ==> Consistent(objs[k])
    ensures |CountAll(l, b, objs, c).objs| == |objs|
    ensures forall k :: 0 <= k < |objs| ==> CountAll(l, b, objs, c).objs[k].centroids == objs[k].centroids
    ensures CountAll(l, b, objs, c).error.None? <==> forall k :: 0 <= k < |objs| ==> |objs[k].centroids| > 0
    ensures CountAll(l, b, objs, c).error.Some? ==> CountAll(l, b, objs, c).error == Some(IndexError)
    ensures c.crossedIn <= CountAll(l, b, objs, c).counts.crossedIn
    ensures c.crossedOut <= CountAll(l, b, objs, c).counts.crossedOut
    ensures CountAll(l, b, objs, c).counts.crossedIn + CountAll(l, b, objs, c).counts.crossedOut
            <= c.crossedIn + c.crossedOut + |objs|
    decreases |objs|
  {
    CountAllCentroids(l, b, objs, c);
    if |objs| > 0 {
      var init := objs[..|objs| - 1];
      assert forall k :: 0 <= k < |init| ==> init[k] == objs[k];
      CountAllBasics(l, b, init, c);
      var before := CountAll(l, b, init, c);
      VisitBasics(l, b, objs[|objs| - 1], before.counts);
      if before.error.None? && |objs[|objs| - 1].centroids| > 0 {
        assert forall k :: 0 <= k < |objs| ==> |objs[k].centroids| > 0 by {
          forall k | 0 <= k < |objs| ensures |objs[k].centroids| > 0 {
            if k < |init| {
              assert init[k] == objs[k];
            }
          }
        }
      }
    }
  }

  /** `count` keeps every object, and its centroids, in place. */
  lemma {:induction false} CountAllCentroids(l: Line, b: Box, objs: seq<TrackedObject>, c: Counts)
    ensures |CountAll(l, b, objs, c).objs| == |objs|
    ensures forall k :: 0 <= k < |objs| ==> CountAll(l, b, objs, c).objs[k].centroids == objs[k].centroids
    decreases |objs|
  {
    if |objs| > 0 {
      var init := objs[..|objs| - 1];
      CountAllCentroids(l, b, init, c);
      var before := CountAll(l, b, init, c);
      var after := CountAll(l, b, objs, c).objs;
      var o := objs[|objs| - 1];
      assert after == before.objs + [after[|objs| - 1]];
      assert after[|objs| - 1].centroids == o.centroids;
      forall k | 0 <= k < |objs| ensures after[k].centroids == objs[k].centroids {
        if k < |init| {
          assert after[k] == before.objs[k] && init[k] == objs[k];
        }
      }
    }
  }

  /** Every object `count` finished with is marked and consistent. */
  lemma {:induction false} CountAllMarked(l: Line, b: Box, objs: seq<TrackedObject>, c: Counts)
    requires forall k :: 0 <= k < |objs| ==> Consistent(objs[k])
    requires CountAll(l, b, objs, c).error.None?
    ensures |CountAll(l, b, objs, c).objs| == |objs|
    ensures forall k :: 0 <= k < |objs| ==>
              CountAll(l, b, objs, c).objs[k].mark.Some? && Consistent(CountAll(l, b, objs, c).objs[k])
    decreases |objs|
  {
    if |objs| > 0 {
      var init := objs[..|objs| - 1];
      assert forall k :: 0 <= k < |init| ==> init[k] == objs[k];
      CountAllMarked(l, b, init, c);
      VisitBasics(l, b, objs[|objs| - 1], CountAll(l, b, init, c).counts);
    }
  }

  /** Counting the same frame twice counts nothing the second time: the objects `count` leaves are
      fixed points of it, and the totals handed in come back unchanged. */
  lemma {:induction false} CountAllIdempotent(l: Line, b: Box, objs: seq<TrackedObject>, c: Counts, c2: Counts)
    requires forall k :: 0 <= k < |objs| ==> Consistent(objs[k])
    requires CountAll(l, b, objs, c).error.None?
    ensures CountAll(l, b, CountAll(l, b, objs, c).objs, c2) == Outcome(CountAll(l, b, objs, c).objs, c2, None)
    decreases |objs|
  {
    if |objs| > 0 {
      var init := objs[..|objs| - 1];
      assert forall k :: 0 <= k < |init| ==> init[k] == objs[k];
      var before := CountAll(l, b, init, c);
      CountAllIdempotent(l, b, init, c, c2);
      CountAllBasics(l, b, init, c);
      var last := objs[|objs| - 1];
      VisitIdempotent(l, b, last, before.counts, c2);
      var after := CountAll(l, b, objs, c).objs;
      assert after == before.objs + [Visit(l, b, last, before.counts).value.0];
      assert after[..|after| - 1] == before.objs;
    }
  }

  /** One more object of the loop of the method below, where `cur` is the list so far: its first
      `i` objects are done and the rest are as given. */
  lemma CountAllStep(l: Line, b: Box, objs: seq<TrackedObject>, c: Counts, i: nat, cur: seq<TrackedObject>)
    requires i < |objs| && CountAll(l, b, objs[..i], c).error.None?
    requires cur == CountAll(l, b, objs[..i], c).objs + objs[i..]
    ensures i < |cur| && cur[i] == objs[i]
    ensures var before := CountAll(l, b, objs[..i], c);
      var v := Visit(l, b, objs[i], before.counts);
      && cur[i := if v.Ok? then v.value.0 else Initialized(objs[i])]
           == CountAll(l, b, objs[..i + 1], c).objs + objs[i + 1..]
      && CountAll(l, b, objs[..i + 1], c).counts == (if v.Ok? then v.value.1 else before.counts)
      && CountAll(l, b, objs[..i + 1], c).error == (if v.Ok? then None else Some(v.error))
  {
    assert objs[..i + 1][..i] == objs[..i];
    var before := CountAll(l, b, objs[..i], c);
    assert |cur| == |before.objs| + |objs| - i;
    assert |before.objs| == i by {
      CountAllLength(l, b, objs[..i], c);
    }
    assert cur[i] == objs[i..][0];
    assert objs[i..] == [objs[i]] + objs[i + 1..];
  }

  lemma {:induction false} CountAllLength(l: Line, b: Box, objs: seq<TrackedObject>, c: Counts)
    ensures |CountAll(l, b, objs, c).objs| == |objs|
    decreases |objs|
  {
    if |objs| > 0 {
      CountAllLength(l, b, objs[..|objs| - 1], c);
    }
  }

  /** `ObjectCounter`: the configured line, its box and the two totals. */
  class ObjectCounter {
    const line: Line
    const bbox: Box
    var crossedIn: nat
    var crossedOut: nat

    /** `__init__`: both totals start at 0 and the box is the line's. */
    constructor (line: Line)
      ensures this.line == line && bbox == BBox(line) && crossedIn == 0 && crossedOut == 0
    {
      this.line := line;
      bbox := BBox(line);
      crossedIn, crossedOut := 0, 0;
    }

    /** `count(tracked_objects)`: the objects get their new marks in place and the totals move as
        `CountAll` says; the totals and the line are returned, or the IndexError that stopped the
        loop (with what was counted before it kept). */
    method Count(objs: array<TrackedObject>) returns (r: Result<(Counts, Line)>)
      modifies this, objs
      ensures var out := CountAll(line, bbox, old(objs[..]), Counts(old(crossedIn), old(crossedOut)));
        && objs[..] == out.objs && Counts(crossedIn, crossedOut) == out.counts
        && r == if out.error.Some? then Err(out.error.value) else Ok((out.counts, line))
    {
      ghost var s0 := objs[..];
      ghost var c0 := Counts(crossedIn, crossedOut);
      var i := 0;
      while i < objs.Length
        invariant 0 <= i <= objs.Length
        invariant CountAll(line, bbox, s0[..i], c0).error.None?
        invariant objs[..] == CountAll(line, bbox, s0[..i], c0).objs + s0[i..]
        invariant Counts(crossedIn, crossedOut) == CountAll(line, bbox, s0[..i], c0).counts
      {
        var ok := CountStep(objs, i, s0, c0);
        if !ok {
          CountAllStopped(line, bbox, s0, c0, i + 1);
          return Err(IndexError);
        }
        i := i + 1;
      }
      assert s0[..objs.Length] == s0;
      r := Ok((Counts(crossedIn, crossedOut), line));
    }

    /** The loop of `count` from `i` objects done to `i + 1`, as `CountAll` says. */
    method CountStep(objs: array<TrackedObject>, i: nat, ghost s0: seq<TrackedObject>, ghost c0: Counts)
      returns (ok: bool)
      requires i < objs.Length == |s0| && CountAll(line, bbox, s0[..i], c0).error.None?
      requires objs[..] == CountAll(line, bbox, s0[..i], c0).objs + s0[i..]
      requires Counts(crossedIn, crossedOut) == CountAll(line, bbox, s0[..i], c0).counts
      modifies this, objs
      ensures var out := CountAll(line, bbox, s0[..i + 1], c0);
        && objs[..] == out.objs + s0[i + 1..] && Counts(crossedIn, crossedOut) == out.counts
        && (ok <==> out.error.None?) && (!ok ==> out.error == Some(IndexError))
    {
      CountAllStep(line, bbox, s0, c0, i, objs[..]);
      ok := VisitAt(objs, i);
    }

    /** One pass of the loop of `count`, over `objs[i]`: the object and the totals become what
        `Visit` says, or, without a centroid, the object is initialised and false is returned. */
    method VisitAt(objs: array<TrackedObject>, i: nat) returns (ok: bool)
      requires i < objs.Length
      modifies this, objs
      ensures var v := Visit(line, bbox, old(objs[i]), Counts(old(crossedIn), old(crossedOut)));
        && ok == v.Ok?
        && objs[..] == old(objs[..])[i := if v.Ok? then v.value.0 else Initialized(old(objs[i]))]
        && Counts(crossedIn, crossedOut) == if v.Ok? then v.value.1 else Counts(old(crossedIn), old(crossedOut))
    {
      var o := objs[i];
      if o.mark.None? {
        o := o.(mark := Some(Mark(false, None)));
        objs[i] := o;
      }
      if |o.centroids| == 0 {
        return false;
      }
      var p := o.centroids[|o.centroids| - 1];
      if RectContains(bbox, p) {
        var cross := Cross(line, p);
        if !o.mark.value.counted {
          var isIn := if cross < 0 then true else false;
          objs[i] := o.(mark := Some(Mark(true, Some(isIn))));
        } else {
          var isIn := o.mark.value.isIn;
          if isIn == Some(true) && cross >= 0 {
            crossedOut := crossedOut + 1;
            isIn := Some(false);
          }
          if isIn == Some(false) && cross < 0 {
            crossedIn := crossedIn + 1;
            isIn := Some(true);
          }
          objs[i] := o.(mark := Some(o.mark.value.(isIn := isIn)));
        }
      }
      ok := true;
    }
  }

  /** Once the loop has stopped at an error, the objects after it stay as they are. */
  lemma {:induction false} CountAllStopped(l: Line, b: Box, objs: seq<TrackedObject>, c: Counts, i: nat)
    requires i <= |objs| && CountAll(l, b, objs[..i], c).error.Some?
    ensures CountAll(l, b, objs, c) ==
              Outcome(CountAll(l, b, objs[..i], c).objs + objs[i..], CountAll(l, b, objs[..i], c).counts,
                      CountAll(l, b, objs[..i], c).error)
    decreases |objs| - i
  {
    if i == |objs| {
      assert objs[..i] == objs;
    } else {
      CountAllStoppedStep(l, b, objs, c, i);
      CountAllStopped(l, b, objs, c, i + 1);
      ShiftOne(CountAll(l, b, objs[..i], c).objs, objs, i);
    }
  }

  lemma ShiftOne<T>(a: seq<T>, s: seq<T>, i: nat)
    requires i < |s|
    ensures (a + [s[i]]) + s[i + 1..] == a + s[i..]
  {
    assert s[i..] == [s[i]] + s[i + 1..];
  }

  lemma CountAllStoppedStep(l: Line, b: Box, objs: seq<TrackedObject>, c: Counts, i: nat)
    requires i < |objs| && CountAll(l, b, objs[..i], c).error.Some?
    ensures CountAll(l, b, objs[..i + 1], c) ==
              Outcome(CountAll(l, b, objs[..i], c).objs + [objs[i]], CountAll(l, b, objs[..i], c).counts,
                      CountAll(l, b, objs[..i], c).error)
  {
    assert objs[..i + 1][..i] == objs[..i];
  }
}
