/** The counting half of `detect` in OpencvObjectCounter
    (examples/modules/object_counter/opencv_object_counter.py) and DlibObjectCounter
    (examples/modules/object_counter/dlib_object_counter.py); the two halves are the same code. The
    centroid tracker associates the boxes of the frame with object ids; every id then has a trackable
    object holding its centroid history, and an object is counted once, as going up or down, when it
    moves in that direction on that side of the frame's horizontal midline. */
module UpDownCounter {
  import opened Wrappers
  import opened Points
  import opened CentroidMatching
  import opened CentroidTracker

  /** `TrackableObject`: an id, its centroid history, and whether it has been counted. */
  datatype Trackable = Trackable(objectId: nat, centroids: seq<Point>, counted: bool)

  /** The two totals, `total_up` and `total_down`. */
  datatype Totals = Totals(up: nat, down: nat)

  /** The sum of the y coordinates. */
  function SumY(cs: seq<Point>): int
  {
    if |cs| == 0 then 0 else SumY(cs[..|cs| - 1]) + cs[|cs| - 1].y
  }

  /** `direction < 0`, with direction = y - mean(ys), tested without division. */
  predicate MovingUp(ys: seq<Point>, y: int)
  {
    y * |ys| < SumY(ys)
  }

  /** `direction > 0`. */
  predicate MovingDown(ys: seq<Point>, y: int)
  {
    y * |ys| > SumY(ys)
  }

  /** The integer test agrees with the sign of y minus the exact mean of the previous ys. With no
      previous centroid neither holds, as neither comparison holds for the NaN mean of no values. */
  lemma DirectionSign(ys: seq<Point>, y: int)
    ensures |ys| == 0 ==> !MovingUp(ys, y) && !MovingDown(ys, y)
    ensures |ys| > 0 ==>
              var mean := SumY(ys) as real / |ys| as real;
              && (MovingUp(ys, y) <==> y as real - mean < 0.0)
              && (MovingDown(ys, y) <==> y as real - mean > 0.0)
  {
    if |ys| > 0 {
      MeanSign(SumY(ys), |ys|, y);
    }
  }

  /** y * n against s decides the sign of y - s / n. */
  lemma MeanSign(s: int, n: int, y: int)
    requires n > 0
    ensures y * n < s <==> y as real - s as real / n as real < 0.0
    ensures y * n > s <==> y as real - s as real / n as real > 0.0
  {
    var nr, mean := n as real, s as real / n as real;
    assert mean * nr == s as real;
    assert (y * n) as real == y as real * nr;
    ScaleOrder(y as real, mean, nr);
  }

  /** Multiplying by a positive number keeps the order. */
  lemma ScaleOrder(a: real, b: real, n: real)
    requires n > 0.0
    ensures a < b <==> a * n < b * n
    ensures a > b <==> a * n > b * n
  {
    assert b * n - a * n == (b - a) * n;
    if a < b {
      assert (b - a) * n > 0.0;
    } else if a > b {
      assert (a - b) * n > 0.0;
    }
  }

  /** The loop body of `detect` for one tracked id with centroid `c`, given its trackable (if any),
      the frame height and the totals: a new id gets a trackable holding just `c`; a known one gets
      `c` appended, after its direction was taken against the previous centroids, and is counted
      up or down once when it moves that way on that side of the midline `h // 2`. */
  function Observe(prev: Option<Trackable>, id: nat, c: Point, h: nat, t: Totals): (Trackable, Totals)
  {
    match prev
    case None => (Trackable(id, [c], false), t)
    case Some(to) =>
      var to2 := to.(centroids := to.centroids + [c]);
      if to.counted then (to2, t)
      else if MovingUp(to.centroids, c.y) && c.y < h / 2 then (to2.(counted := true), t.(up := t.up + 1))
      else if MovingDown(to.centroids, c.y) && c.y > h / 2 then (to2.(counted := true), t.(down := t.down + 1))
      else (to2, t)
  }

  /** What one object's pass does: a new id's trackable holds only the current centroid and is not
      counted; a known one keeps its id and gets the centroid appended; an object counted stays
      counted and adds nothing; an uncounted one adds one to `up` exactly when it moves up above the
      midline, one to `down` exactly when it moves down below it, and nothing otherwise. */
  lemma ObserveRules(prev: Option<Trackable>, id: nat, c: Point, h: nat, t: Totals)
    ensures var (to, t2) := Observe(prev, id, c, h, t);
      && (prev.None? ==> to == Trackable(id, [c], false) && t2 == t)
      && (prev.Some? ==> to.objectId == prev.value.objectId && to.centroids == prev.value.centroids + [c])
      && (prev.Some? && prev.value.counted ==> to.counted && t2 == t)
      && (prev.Some? && !prev.value.counted ==>
            && (t2.up == t.up + 1 <==> MovingUp(prev.value.centroids, c.y) && c.y < h / 2)
            && (t2.down == t.down + 1 <==>
                  !(MovingUp(prev.value.centroids, c.y) && c.y < h / 2) && MovingDown(prev.value.centroids, c.y) && c.y > h / 2)
            && (to.counted <==> t2 != t))
      && t.up <= t2.up <= t.up + 1 && t.down <= t2.down <= t.down + 1
      && t2.up + t2.down <= t.up + t.down + 1
  {
  }

  /** The ids of the trackables already counted. */
  function CountedIds(tr: map<nat, Trackable>): set<nat>
  {
    set id | id in tr && tr[id].counted
  }

  /** One pass adds to the totals exactly as many as it adds to the counted ids, so no object is
      counted twice. */
  lemma ObserveCounted(tr: map<nat, Trackable>, id: nat, c: Point, h: nat, t: Totals)
    ensures var (to, t2) := Observe(if id in tr then Some(tr[id]) else None, id, c, h, t);
      |CountedIds(tr[id := to])| + t.up + t.down == |CountedIds(tr)| + t2.up + t2.down
  {
    var prev := if id in tr then Some(tr[id]) else None;
    var (to, t2) := Observe(prev, id, c, h, t);
    var before, after := CountedIds(tr), CountedIds(tr[id := to]);
    if to.counted && !(prev.Some? && prev.value.counted) {
      assert after == before + {id};
      assert id !in before;
    } else if to.counted {
      assert after == before;
    } else {
      assert after == before;
    }
  }

  /** Every id is a key of the tracker's objects. */
  predicate IdsIn(ids: seq<nat>, objects: map<nat, Point>)
  {
    forall k :: 0 <= k < |ids| ==> ids[k] in objects
  }

  /** The loop of `detect` over the ids the tracker returned, in order, with their centroids. */
  function ObserveAll(tr: map<nat, Trackable>, t: Totals, ids: seq<nat>, objects: map<nat, Point>, h: nat)
    : (map<nat, Trackable>, Totals)
    requires IdsIn(ids, objects)
    decreases |ids|
  {
    if |ids| == 0 then (tr, t)
    else
      var (tr1, t1) := ObserveAll(tr, t, ids[..|ids| - 1], objects, h);
      var id := ids[|ids| - 1];
      var (to, t2) := Observe(if id in tr1 then Some(tr1[id]) else None, id, objects[id], h, t1);
      (tr1[id := to], t2)
  }

  /** After the loop: no trackable is removed, and the trackables are those of before plus one for
      every id; the totals never go down, and go up by at most one per id. */
  lemma {:induction false} ObserveAllKeys(tr: map<nat, Trackable>, t: Totals, ids: seq<nat>,
                                          objects: map<nat, Point>, h: nat)
    requires IdsIn(ids, objects)
    ensures ObserveAll(tr, t, ids, objects, h).0.Keys == tr.Keys + set k | 0 <= k < |ids| :: ids[k]
    ensures t.up <= ObserveAll(tr, t, ids, objects, h).1.up
    ensures t.down <= ObserveAll(tr, t, ids, objects, h).1.down
    ensures ObserveAll(tr, t, ids, objects, h).1.up + ObserveAll(tr, t, ids, objects, h).1.down
            <= t.up + t.down + |ids|
    decreases |ids|
  {
    if |ids| > 0 {
      var init := ids[..|ids| - 1];
      ObserveAllKeys(tr, t, init, objects, h);
      var (tr1, t1) := ObserveAll(tr, t, init, objects, h);
      var id := ids[|ids| - 1];
      ObserveRules(if id in tr1 then Some(tr1[id]) else None, id, objects[id], h, t1);
      assert (set k | 0 <= k < |ids| :: ids[k]) == (set k | 0 <= k < |init| :: init[k]) + {id} by {
        assert forall k :: 0 <= k < |init| ==> init[k] == ids[k];
      }
    }
  }

  /** The totals count the counted trackables: the loop adds to them exactly as many as it adds
      to the counted ids. */
  lemma {:induction false} ObserveAllCounted(tr: map<nat, Trackable>, t: Totals, ids: seq<nat>,
                                             objects: map<nat, Point>, h: nat)
    requires IdsIn(ids, objects)
    ensures var (tr2, t2) := ObserveAll(tr, t, ids, objects, h);
      |CountedIds(tr2)| + t.up + t.down == |CountedIds(tr)| + t2.up + t2.down
    decreases |ids|
  {
    if |ids| > 0 {
      var init := ids[..|ids| - 1];
      ObserveAllCounted(tr, t, init, objects, h);
      var (tr1, t1) := ObserveAll(tr, t, init, objects, h);
      var id := ids[|ids| - 1];
      ObserveCounted(tr1, id, objects[id], h, t1);
    }
  }

  /** Every trackable is filed under its own id and has a non-empty history, and stays so. */
  ghost predicate WellFiled(tr: map<nat, Trackable>)
  {
    forall id :: id in tr ==> tr[id].objectId == id && |tr[id].centroids| > 0
  }

  lemma {:induction false} ObserveAllFiled(tr: map<nat, Trackable>, t: Totals, ids: seq<nat>,
                                           objects: map<nat, Point>, h: nat)
    requires IdsIn(ids, objects)
    requires WellFiled(tr)
    ensures WellFiled(ObserveAll(tr, t, ids, objects, h).0)
    decreases |ids|
  {
    if |ids| > 0 {
      var init := ids[..|ids| - 1];
      ObserveAllFiled(tr, t, init, objects, h);
      var (tr1, t1) := ObserveAll(tr, t, init, objects, h);
      var id := ids[|ids| - 1];
      ObserveRules(if id in tr1 then Some(tr1[id]) else None, id, objects[id], h, t1);
    }
  }

  /** The invariant of the counter, on its trackables and totals, with `nextId` the next id the
      tracker hands out. */
  ghost predicate Counting(tr: map<nat, Trackable>, t: Totals, nextId: nat)
  {
    && t.up + t.down == |CountedIds(tr)|
    && WellFiled(tr)
    && (forall id :: id in tr ==> id < nextId)
  }

  /** No trackables and zero totals satisfy the invariant. */
  lemma CountingInitial(nextId: nat)
    ensures Counting(map[], Totals(0, 0), nextId)
  {
    assert CountedIds(map[]) == {};
  }

  /** A pass over ids the tracker handed out keeps the invariant, however far the tracker's next
      id moved on. */
  lemma ObserveAllCounting(tr: map<nat, Trackable>, t: Totals, ids: seq<nat>, objects: map<nat, Point>, h: nat,
                           nextId: nat, nextId2: nat)
    requires IdsIn(ids, objects) && Counting(tr, t, nextId) && nextId <= nextId2
    requires forall k :: 0 <= k < |ids| ==> ids[k] < nextId2
    ensures Counting(ObserveAll(tr, t, ids, objects, h).0, ObserveAll(tr, t, ids, objects, h).1, nextId2)
  {
    ObserveAllCounted(tr, t, ids, objects, h);
    ObserveAllFiled(tr, t, ids, objects, h);
    ObserveAllKeys(tr, t, ids, objects, h);
    var tr2 := ObserveAll(tr, t, ids, objects, h).0;
    forall id | id in tr2
      ensures id < nextId2
    {
      if id !in tr {
        var k :| 0 <= k < |ids| && ids[k] == id;
      }
    }
  }

  /** The ids of a valid tracker state are exactly the keys of its objects. */
  lemma TrackedIds<D>(s: Tracked<D>)
    requires s.Valid()
    ensures IdsIn(s.ids, s.objects)
    ensures (map k | k in s.objects && k in s.ids :: s.objects[k]) == s.objects
  {
    forall k | 0 <= k < |s.ids| ensures s.ids[k] in s.objects {
      assert s.ids[k] in s.ids;
    }
  }

  /** One more id of the loop of the method below. */
  lemma ObserveAllStep(tr: map<nat, Trackable>, t: Totals, ids: seq<nat>, objects: map<nat, Point>, h: nat,
                       i: nat)
    requires i < |ids| && IdsIn(ids, objects)
    ensures IdsIn(ids[..i], objects) && IdsIn(ids[..i + 1], objects)
    ensures var (tr1, t1) := ObserveAll(tr, t, ids[..i], objects, h);
      var id := ids[i];
      ObserveAll(tr, t, ids[..i + 1], objects, h)
        == (tr1[id := Observe(if id in tr1 then Some(tr1[id]) else None, id, objects[id], h, t1).0],
            Observe(if id in tr1 then Some(tr1[id]) else None, id, objects[id], h, t1).1)
  {
    assert ids[..i + 1][..i] == ids[..i];
  }

  /** `OpencvObjectCounter` and `DlibObjectCounter`, without their correlation trackers: the frame
      size once known, the totals, the trackable objects by id and the centroid tracker. */
  class UpDownCounter {
    var w: Option<nat>
    var h: Option<nat>
    var totalFrames: nat
    var totalUp: nat
    var totalDown: nat
    var trackables: map<nat, Trackable>
    const ct: CentroidTracker<()>

    /** The totals count the counted trackables; each trackable is filed under its id, and every
        id was handed out by the tracker; the tracker's own invariant holds. */
    ghost predicate Valid()
      reads this, ct
    {
      && ct.Valid()
      && Counting(trackables, Totals(totalUp, totalDown), ct.nextId)
    }

    /** `__init__(max_disappeared=40, max_distance=80)`: no frame size yet, zero totals, no
        trackables and an empty tracker. */
    constructor (maxDisappeared: int, maxDistance: int)
      ensures Valid()
      ensures w.None? && h.None? && totalFrames == 0 && totalUp == 0 && totalDown == 0 && trackables == map[]
      ensures ct.State() == Initial() && ct.maxDisappeared == maxDisappeared && ct.maxDistance == maxDistance
    {
      w, h := None, None;
      totalFrames, totalUp, totalDown := 0, 0, 0;
      trackables := map[];
      ct := new CentroidTracker(maxDisappeared, maxDistance, (r: Rect) => ());
      CountingInitial(0);
    }

    /** The counting half of `detect(frame, ...)` for a frame `frameH` x `frameW` whose boxes are
        `rects`: the frame size is recorded the first time; the tracker is updated; every id it
        tracks is observed in order; the result maps exactly the tracker's ids to their centroids,
        with the totals; and one more frame is counted. */
    method Detect(frameH: nat, frameW: nat, rects: seq<Rect>) returns (coords: map<nat, Point>, totals: Totals)
      requires Valid()
      modifies this, ct
      ensures Valid()
      ensures old(w).None? || old(h).None? ==> h == Some(frameH) && w == Some(frameW)
      ensures old(w).Some? && old(h).Some? ==> h == old(h) && w == old(w)
      ensures ct.State() == Updated(old(ct.State()), rects, ct.maxDisappeared, ct.maxDistance, ct.payload)
      ensures IdsIn(ct.ids, ct.objects)
      ensures (trackables, Totals(totalUp, totalDown))
              == ObserveAll(old(trackables), Totals(old(totalUp), old(totalDown)), ct.ids, ct.objects, h.value)
      ensures coords == ct.objects && totals == Totals(totalUp, totalDown)
      ensures totalFrames == old(totalFrames) + 1
    {
      if w.None? || h.None? {
        h, w := Some(frameH), Some(frameW);
      }
      var objects, _ := ct.Update(rects);
      var ids := ct.ids;
      TrackedIds(ct.State());
      UpdatedValid(old(ct.State()), rects, ct.maxDisappeared, ct.maxDistance, ct.payload);
      ObserveAllCounting(trackables, Totals(totalUp, totalDown), ids, objects, h.value, old(ct.nextId), ct.nextId);
      coords := ObserveEach(ids, objects);
      totalFrames := totalFrames + 1;
      totals := Totals(totalUp, totalDown);
    }

    /** The loop of `detect` over the tracked ids, in order: each id's trackable and the totals
        change as `ObserveAll` says, and the coordinates of every id are collected. */
    method ObserveEach(ids: seq<nat>, objects: map<nat, Point>) returns (coords: map<nat, Point>)
      requires h.Some? && IdsIn(ids, objects)
      modifies this
      ensures w == old(w) && h == old(h) && totalFrames == old(totalFrames)
      ensures (trackables, Totals(totalUp, totalDown))
              == ObserveAll(old(trackables), Totals(old(totalUp), old(totalDown)), ids, objects, h.value)
      ensures coords == map k | k in objects && k in ids :: objects[k]
    {
      ghost var tr0, t0 := trackables, Totals(totalUp, totalDown);
      coords := map[];
      var i := 0;
      while i < |ids|
        invariant 0 <= i <= |ids| && IdsIn(ids[..i], objects)
        invariant w == old(w) && h == old(h) && totalFrames == old(totalFrames)
        invariant (trackables, Totals(totalUp, totalDown)) == ObserveAll(tr0, t0, ids[..i], objects, h.value)
        invariant coords == map k | k in objects && k in ids[..i] :: objects[k]
      {
        ObserveAllStep(tr0, t0, ids, objects, h.value, i);
        var id := ids[i];
        var c := objects[id];
        ObserveOne(id, c);
        coords := coords[id := c];
        assert ids[..i + 1] == ids[..i] + [id];
        i := i + 1;
      }
      assert ids[..|ids|] == ids;
    }

    /** One pass of the loop of `detect`, for the id `id` at centroid `c`: its trackable and the
        totals become what `Observe` says. */
    method ObserveOne(id: nat, c: Point)
      requires h.Some?
      modifies this
      ensures w == old(w) && h == old(h) && totalFrames == old(totalFrames)
      ensures var (to, t2) := Observe(if id in old(trackables) then Some(old(trackables)[id]) else None, id, c,
                                      h.value, Totals(old(totalUp), old(totalDown)));
        trackables == old(trackables)[id := to] && Totals(totalUp, totalDown) == t2
    {
      var to: Trackable;
      if id !in trackables {
        to := Trackable(id, [c], false);
      } else {
        to := trackables[id];
        var ys := to.centroids;
        to := to.(centroids := to.centroids + [c]);
        if !to.counted {
          if MovingUp(ys, c.y) && c.y < h.value / 2 {
            totalUp := totalUp + 1;
            to := to.(counted := true);
          } else if MovingDown(ys, c.y) && c.y > h.value / 2 {
            totalDown := totalDown + 1;
            to := to.(counted := true);
          }
        }
      }
      trackables := trackables[id := to];
    }
  }
}
