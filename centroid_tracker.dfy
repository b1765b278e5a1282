/** `CentroidTracker` of examples/modules/object_tracker/centroid_tracker.py and its copy in
    examples/modules/object_counter/centroid_tracker.py. Both keep insertion-ordered maps from
    object id to centroid and to the number of consecutive frames the object has gone unseen; the
    first also keeps each object's box size. One class models both: the per-object payload `D` is the
    box size (`Size`, computed by `BoxSize`) for the first and nothing (`()`) for the copy, which
    keeps no `bbox_dims`. */
module CentroidTracker {
  import opened Wrappers
  import opened Points
  import opened OrderedMaps
  import opened CentroidMatching

  /** Strictly increasing: the order in which added ids are handed out. */
  predicate Increasing(s: seq<nat>)
  {
    forall a, b :: 0 <= a < b < |s| ==> s[a] < s[b]
  }

  /** The tracker's state: the ids in insertion order (the shared key order of the three
      `OrderedDict`s), the maps `objects`, `bbox_dims` (the payloads) and `disappeared`, and
      `next_object_id`. */
  datatype Tracked<D> = Tracked(ids: seq<nat>, objects: map<nat, Point>, dims: map<nat, D>,
                                disappeared: map<nat, nat>, nextId: nat)
  {
    /** The three maps have the same keys, which are the ids; ids were handed out in increasing
        order, and every id is below the next one to be handed out. */
    ghost predicate Valid()
    {
      && objects.Keys == dims.Keys && dims.Keys == disappeared.Keys
      && (forall id :: id in objects <==> id in ids)
      && Increasing(ids)
      && (forall k :: 0 <= k < |ids| ==> ids[k] < nextId)
    }
  }

  /** What the tracker holds for an id: its centroid, payload and disappearance counter. */
  function Entry<D>(t: Tracked<D>, id: nat): Option<(Point, D, nat)>
  {
    if id in t.objects && id in t.dims && id in t.disappeared
    then Some((t.objects[id], t.dims[id], t.disappeared[id]))
    else None
  }

  /** The state `__init__` creates. */
  function Initial<D>(): (t: Tracked<D>)
    ensures t.Valid() && t.nextId == 0
    ensures forall id :: Entry(t, id).None?
  {
    Tracked([], map[], map[], map[], 0)
  }

  /** `register(centroid, bbox_dim)`. */
  function Registered<D>(t: Tracked<D>, c: Point, d: D): Tracked<D>
  {
    Tracked(t.ids + [t.nextId], t.objects[t.nextId := c], t.dims[t.nextId := d],
            t.disappeared[t.nextId := 0], t.nextId + 1)
  }

  /** `deregister(object_id)`. */
  function Deregistered<D>(t: Tracked<D>, id: nat): Tracked<D>
  {
    Tracked(Without(t.ids, id), t.objects - {id}, t.dims - {id}, t.disappeared - {id}, t.nextId)
  }

  /** One more frame unseen: the counter goes up by one, and the object is dropped once the counter
      exceeds `maxDisappeared`. */
  function AgedEntry<D>(e: Option<(Point, D, nat)>, maxDisappeared: int): Option<(Point, D, nat)>
  {
    match e
    case None => None
    case Some((c, d, n)) => if n + 1 > maxDisappeared then None else Some((c, d, n + 1))
  }

  /** `self.disappeared[object_id] += 1`, then `deregister` when it exceeds the maximum. */
  function Aged<D>(t: Tracked<D>, id: nat, maxDisappeared: int): Tracked<D>
  {
    if id !in t.disappeared then t
    else if t.disappeared[id] + 1 > maxDisappeared then Deregistered(t, id)
    else t.(disappeared := t.disappeared[id := t.disappeared[id] + 1])
  }

  /** Deleting an id erases whatever its counter was just set to, so `Aged` may deregister the
      state before the increment. */
  lemma DeregisteredCounted<D>(t: Tracked<D>, id: nat, n: nat)
    ensures Deregistered(t.(disappeared := t.disappeared[id := n]), id) == Deregistered(t, id)
  {
    assert t.disappeared[id := n] - {id} == t.disappeared - {id};
  }

  /** Ageing each id of `xs` in turn. */
  function AgedAll<D>(t: Tracked<D>, xs: seq<nat>, maxDisappeared: int): Tracked<D>
    decreases |xs|
  {
    if |xs| == 0 then t
    else Aged(AgedAll(t, xs[..|xs| - 1], maxDisappeared), xs[|xs| - 1], maxDisappeared)
  }

  /** Registering each (centroid, payload) of `ins` in turn. */
  function RegisteredAll<D>(t: Tracked<D>, ins: seq<(Point, D)>): Tracked<D>
    decreases |ins|
  {
    if |ins| == 0 then t
    else
      var last := ins[|ins| - 1];
      Registered(RegisteredAll(t, ins[..|ins| - 1]), last.0, last.1)
  }

  /** A matched object takes the input's centroid and payload, and its counter restarts at 0. */
  function Matched<D>(t: Tracked<D>, id: nat, c: Point, d: D): Tracked<D>
  {
    t.(objects := t.objects[id := c], dims := t.dims[id := d], disappeared := t.disappeared[id := 0])
  }

  /** The (row, column) pairs index an object id and an input. */
  predicate PairsIn<D>(acc: seq<(nat, nat)>, objectIds: seq<nat>, ins: seq<(Point, D)>)
  {
    forall k :: 0 <= k < |acc| ==> acc[k].0 < |objectIds| && acc[k].1 < |ins|
  }

  /** Matching the object of every accepted row to the input of its column, in turn. */
  function MatchedAll<D>(t: Tracked<D>, acc: seq<(nat, nat)>, objectIds: seq<nat>, ins: seq<(Point, D)>)
    : Tracked<D>
    requires PairsIn(acc, objectIds, ins)
    decreases |acc|
  {
    if |acc| == 0 then t
    else
      var (r, c) := acc[|acc| - 1];
      Matched(MatchedAll(t, acc[..|acc| - 1], objectIds, ins), objectIds[r], ins[c].0, ins[c].1)
  }

  /** The ids of the accepted rows. */
  function MatchedIds(acc: seq<(nat, nat)>, objectIds: seq<nat>): set<nat>
  {
    set p | p in acc && p.0 < |objectIds| :: objectIds[p.0]
  }

  /** A valid state holds exactly its ids, all below `nextId`. */
  lemma ValidEntries<D>(t: Tracked<D>)
    requires t.Valid()
    ensures forall id: nat :: Entry(t, id).Some? <==> id in t.ids
    ensures forall id: nat :: id in t.ids ==> id < t.nextId
  {
    forall id | id in t.ids ensures id < t.nextId {
      var k :| 0 <= k < |t.ids| && t.ids[k] == id;
    }
  }

  lemma IncreasingDistinct(s: seq<nat>)
    requires Increasing(s)
    ensures Distinct(s) && NoRepeats(s)
  {
  }

  /** Deleting an id keeps the order increasing. */
  lemma {:induction false} WithoutIncreasing(s: seq<nat>, k: nat)
    requires Increasing(s)
    ensures Increasing(Without(s, k))
    decreases |s|
  {
    if |s| > 0 {
      var rest := s[1..];
      assert Increasing(rest) by {
        forall a, b | 0 <= a < b < |rest| ensures rest[a] < rest[b] {
          assert rest[a] == s[a + 1] && rest[b] == s[b + 1];
        }
      }
      WithoutIncreasing(rest, k);
      var w := Without(rest, k);
      var r := Without(s, k);
      assert r == (if s[0] == k then [] else [s[0]]) + w;
      forall j | 0 <= j < |w| ensures s[0] < w[j] {
        assert w[j] in w;
        assert w[j] in rest;
        var i :| 0 <= i < |rest| && rest[i] == w[j];
        assert rest[i] == s[i + 1];
      }
      forall a, b | 0 <= a < b < |r| ensures r[a] < r[b] {
        if s[0] != k {
          if a == 0 { assert r[b] == w[b - 1]; } else { assert r[a] == w[a - 1] && r[b] == w[b - 1]; }
        } else {
          assert r[a] == w[a] && r[b] == w[b];
        }
      }
    }
  }

  /** `register` keeps the state well formed: the id it hands out is added, and it is appended to
      the order. */
  lemma RegisteredValid<D>(t: Tracked<D>, c: Point, d: D)
    requires t.Valid()
    ensures Registered(t, c, d).Valid()
    ensures Entry(t, t.nextId).None?
  {
    ValidEntries(t);
    var u := Registered(t, c, d);
    forall a, b | 0 <= a < b < |u.ids| ensures u.ids[a] < u.ids[b] {
      if b == |u.ids| - 1 { assert u.ids[a] == t.ids[a]; } else { assert u.ids[a] == t.ids[a] && u.ids[b] == t.ids[b]; }
    }
    forall id ensures id in u.objects <==> id in u.ids {
      assert id in u.ids <==> id in t.ids || id == t.nextId;
    }
  }

  /** `register` gives the object the id `next_object_id` with its counter at 0 and leaves every
      other id alone; the next id goes up by one. */
  lemma RegisteredEntries<D>(t: Tracked<D>, c: Point, d: D)
    ensures Registered(t, c, d).nextId == t.nextId + 1
    ensures Entry(Registered(t, c, d), t.nextId) == Some((c, d, 0))
    ensures forall id :: id != t.nextId ==> Entry(Registered(t, c, d), id) == Entry(t, id)
  {
  }

  /** `deregister` keeps the state well formed, removing the id from the order. */
  lemma DeregisteredValid<D>(t: Tracked<D>, id: nat)
    requires t.Valid()
    ensures Deregistered(t, id).Valid()
  {
    var u := Deregistered(t, id);
    WithoutIncreasing(t.ids, id);
    forall k | 0 <= k < |u.ids| ensures u.ids[k] < t.nextId {
      assert u.ids[k] in u.ids;
      var j :| 0 <= j < |t.ids| && t.ids[j] == u.ids[k];
    }
  }

  /** `deregister` drops the id and leaves every other id alone. */
  lemma DeregisteredEntries<D>(t: Tracked<D>, id: nat)
    ensures Entry(Deregistered(t, id), id).None?
    ensures forall x :: x != id ==> Entry(Deregistered(t, id), x) == Entry(t, x)
  {
  }

  /** Matching a tracked object keeps the state well formed and the ids in their order. */
  lemma MatchedValid<D>(t: Tracked<D>, id: nat, c: Point, d: D)
    requires t.Valid() && id in t.objects
    ensures Matched(t, id, c, d).Valid()
    ensures Matched(t, id, c, d).ids == t.ids
  {
  }

  /** Matching an object replaces its centroid and payload, restarts its counter and leaves every
      other object alone. */
  lemma MatchedEntries<D>(t: Tracked<D>, id: nat, c: Point, d: D)
    ensures Entry(Matched(t, id, c, d), id) == Some((c, d, 0))
    ensures forall x :: x != id ==> Entry(Matched(t, id, c, d), x) == Entry(t, x)
  {
  }

  /** Ageing keeps the state well formed. */
  lemma AgedValid<D>(t: Tracked<D>, id: nat, maxDisappeared: int)
    requires t.Valid()
    ensures Aged(t, id, maxDisappeared).Valid()
  {
    if id in t.disappeared {
      if t.disappeared[id] + 1 > maxDisappeared {
        DeregisteredValid(t, id);
      } else {
        CountedValid(t, id, t.disappeared[id] + 1);
      }
    }
  }

  /** Setting the counter of a tracked object keeps the state well formed. */
  lemma CountedValid<D>(t: Tracked<D>, id: nat, n: nat)
    requires t.Valid() && id in t.disappeared
    ensures t.(disappeared := t.disappeared[id := n]).Valid()
  {
  }

  /** Ageing an id changes its entry as `AgedEntry` says and leaves every other id alone. */
  lemma AgedEntries<D>(t: Tracked<D>, id: nat, maxDisappeared: int)
    ensures Entry(Aged(t, id, maxDisappeared), id) == AgedEntry(Entry(t, id), maxDisappeared)
    ensures forall x :: x != id ==> Entry(Aged(t, id, maxDisappeared), x) == Entry(t, x)
  {
    if id in t.disappeared && t.disappeared[id] + 1 > maxDisappeared {
      DeregisteredEntries(t, id);
    }
  }

  /** Ageing a list of ids in turn keeps the state well formed and hands out no id. */
  lemma {:induction false} AgedAllValid<D>(t: Tracked<D>, xs: seq<nat>, maxDisappeared: int)
    requires t.Valid()
    ensures AgedAll(t, xs, maxDisappeared).Valid()
    ensures AgedAll(t, xs, maxDisappeared).nextId == t.nextId
    decreases |xs|
  {
    if |xs| > 0 {
      AgedAllValid(t, xs[..|xs| - 1], maxDisappeared);
      AgedValid(AgedAll(t, xs[..|xs| - 1], maxDisappeared), xs[|xs| - 1], maxDisappeared);
    }
  }

  /** Ageing distinct ids in turn ages each of them once and leaves every other id alone. */
  lemma {:induction false} AgedAllEntries<D>(t: Tracked<D>, xs: seq<nat>, maxDisappeared: int)
    requires NoRepeats(xs)
    ensures forall id :: Entry(AgedAll(t, xs, maxDisappeared), id) ==
                         if id in xs then AgedEntry(Entry(t, id), maxDisappeared) else Entry(t, id)
    decreases |xs|
  {
    if |xs| > 0 {
      var init, x := xs[..|xs| - 1], xs[|xs| - 1];
      assert NoRepeats(init);
      assert x !in init;
      AgedAllEntries(t, init, maxDisappeared);
      AgedEntries(AgedAll(t, init, maxDisappeared), x, maxDisappeared);
      forall id ensures id in xs <==> id in init || id == x {
        assert xs == init + [x];
      }
    }
  }

  /** Ageing issues no id. */
  lemma {:induction false} AgedAllNextId<D>(t: Tracked<D>, xs: seq<nat>, maxDisappeared: int)
    ensures AgedAll(t, xs, maxDisappeared).nextId == t.nextId
    decreases |xs|
  {
    if |xs| > 0 {
      AgedAllNextId(t, xs[..|xs| - 1], maxDisappeared);
    }
  }

  /** Registering a list of inputs in turn keeps the state well formed; the next id goes up by
      the number of inputs. */
  lemma {:induction false} RegisteredAllValid<D>(t: Tracked<D>, ins: seq<(Point, D)>)
    requires t.Valid()
    ensures RegisteredAll(t, ins).Valid()
    ensures RegisteredAll(t, ins).nextId == t.nextId + |ins|
    decreases |ins|
  {
    if |ins| > 0 {
      var init := ins[..|ins| - 1];
      RegisteredAllValid(t, init);
      RegisteredValid(RegisteredAll(t, init), ins[|ins| - 1].0, ins[|ins| - 1].1);
    }
  }

  /** Registering a list of inputs in turn gives input k the id `nextId + k`, with its counter at
      0, and leaves every id outside those alone. */
  lemma {:induction false} RegisteredAllEntries<D>(t: Tracked<D>, ins: seq<(Point, D)>)
    ensures RegisteredAll(t, ins).nextId == t.nextId + |ins|
    ensures forall k :: 0 <= k < |ins| ==> Entry(RegisteredAll(t, ins), t.nextId + k) == Some((ins[k].0, ins[k].1, 0))
    ensures forall id: nat :: (id < t.nextId || id >= t.nextId + |ins|) ==> Entry(RegisteredAll(t, ins), id) == Entry(t, id)
    decreases |ins|
  {
    if |ins| > 0 {
      var init := ins[..|ins| - 1];
      RegisteredAllEntries(t, init);
      var prev := RegisteredAll(t, init);
      RegisteredEntries(prev, ins[|ins| - 1].0, ins[|ins| - 1].1);
      assert forall k :: 0 <= k < |init| ==> init[k] == ins[k];
    }
  }

  /** Matching the tracked objects keeps the state well formed and the ids in their order. */
  lemma {:induction false} MatchedAllValid<D>(t: Tracked<D>, acc: seq<(nat, nat)>, ins: seq<(Point, D)>)
    requires t.Valid() && PairsIn(acc, t.ids, ins)
    ensures MatchedAll(t, acc, t.ids, ins).Valid()
    ensures MatchedAll(t, acc, t.ids, ins).ids == t.ids
    ensures MatchedAll(t, acc, t.ids, ins).nextId == t.nextId
    decreases |acc|
  {
    if |acc| > 0 {
      var init := acc[..|acc| - 1];
      assert PairsIn(init, t.ids, ins) by {
        forall k | 0 <= k < |init| ensures init[k].0 < |t.ids| && init[k].1 < |ins| { assert init[k] == acc[k]; }
      }
      MatchedAllValid(t, init, ins);
      var prev := MatchedAll(t, init, t.ids, ins);
      var (r, c) := acc[|acc| - 1];
      assert t.ids[r] in prev.ids;
      MatchedValid(prev, t.ids[r], ins[c].0, ins[c].1);
    }
  }

  /** Matching issues no id and keeps the ids in their order. */
  lemma {:induction false} MatchedAllKeeps<D>(t: Tracked<D>, acc: seq<(nat, nat)>, objectIds: seq<nat>,
                                               ins: seq<(Point, D)>)
    requires PairsIn(acc, objectIds, ins)
    ensures MatchedAll(t, acc, objectIds, ins).ids == t.ids
    ensures MatchedAll(t, acc, objectIds, ins).nextId == t.nextId
    decreases |acc|
  {
    if |acc| > 0 {
      var init := acc[..|acc| - 1];
      assert PairsIn(init, objectIds, ins) by {
        forall k | 0 <= k < |init| ensures init[k].0 < |objectIds| && init[k].1 < |ins| { assert init[k] == acc[k]; }
      }
      MatchedAllKeeps(t, init, objectIds, ins);
    }
  }

  /** Matching gives the object of every accepted row the centroid and payload of the input of
      its column, with its counter at 0, and leaves the objects of the other rows alone. */
  lemma {:induction false} MatchedAllEntries<D>(t: Tracked<D>, acc: seq<(nat, nat)>, objectIds: seq<nat>,
                                                ins: seq<(Point, D)>)
    requires PairsIn(acc, objectIds, ins) && NoRepeats(objectIds) && OneToOne(acc)
    ensures forall k :: 0 <= k < |acc| ==>
              Entry(MatchedAll(t, acc, objectIds, ins), objectIds[acc[k].0]) == Some((ins[acc[k].1].0, ins[acc[k].1].1, 0))
    ensures forall id :: id !in MatchedIds(acc, objectIds) ==> Entry(MatchedAll(t, acc, objectIds, ins), id) == Entry(t, id)
    decreases |acc|
  {
    if |acc| > 0 {
      var init := acc[..|acc| - 1];
      var (r, c) := acc[|acc| - 1];
      LastPair(acc, objectIds, ins);
      MatchedAllEntries(t, init, objectIds, ins);
      var prev := MatchedAll(t, init, objectIds, ins);
      MatchedEntries(prev, objectIds[r], ins[c].0, ins[c].1);
      forall k | 0 <= k < |acc|
        ensures Entry(MatchedAll(t, acc, objectIds, ins), objectIds[acc[k].0]) == Some((ins[acc[k].1].0, ins[acc[k].1].1, 0))
      {
        if k < |init| {
          assert acc[k] == init[k];
        }
      }
    }
  }

  /** Splitting off the last accepted pair: the others are accepted pairs too, none shares its
      object, and the matched ids are theirs and its. */
  lemma LastPair<D>(acc: seq<(nat, nat)>, objectIds: seq<nat>, ins: seq<(Point, D)>)
    requires |acc| > 0 && PairsIn(acc, objectIds, ins) && NoRepeats(objectIds) && OneToOne(acc)
    ensures var init, r := acc[..|acc| - 1], acc[|acc| - 1].0;
      && PairsIn(init, objectIds, ins) && OneToOne(init)
      && (forall k :: 0 <= k < |init| ==> init[k] == acc[k] && objectIds[init[k].0] != objectIds[r])
      && MatchedIds(acc, objectIds) == MatchedIds(init, objectIds) + {objectIds[r]}
  {
    var init, r := acc[..|acc| - 1], acc[|acc| - 1].0;
    assert forall k :: 0 <= k < |init| ==> init[k] == acc[k];
    forall k | 0 <= k < |init| ensures objectIds[init[k].0] != objectIds[r] {
      assert init[k].0 != r;
    }
    assert acc == init + [acc[|acc| - 1]];
  }

  /** The centroid and payload of every input box, in box order (`input_centroids` and
      `input_bbox_dims`). */
  function InputsOf<D>(rects: seq<Rect>, payload: Rect -> D): seq<(Point, D)>
  {
    seq(|rects|, i requires 0 <= i < |rects| => (Centroid(rects[i]), payload(rects[i])))
  }

  function Centers<D>(ins: seq<(Point, D)>): seq<Point>
  {
    seq(|ins|, k requires 0 <= k < |ins| => ins[k].0)
  }

  /** `list(self.objects.values())`: the tracked centroids in id order. */
  function CentroidsInOrder<D>(t: Tracked<D>): seq<Point>
    requires t.Valid()
  {
    seq(|t.ids|, k requires 0 <= k < |t.ids| => t.objects[t.ids[k]])
  }

  /** The elements of `xs` at the positions `idx`, in the order of `idx`. */
  function Pick<T>(xs: seq<T>, idx: seq<nat>): seq<T>
    requires forall k :: 0 <= k < |idx| ==> idx[k] < |xs|
  {
    seq(|idx|, k requires 0 <= k < |idx| => xs[idx[k]])
  }

  /** The squared distance from every tracked centroid (rows) to every input (columns). */
  function DistanceMatrix<D>(t: Tracked<D>, ins: seq<(Point, D)>): (d: seq<seq<nat>>)
    requires t.Valid()
  {
    Distances(CentroidsInOrder(t), Centers(ins))
  }

  /** The (row, column) pairs the greedy pass of `update` accepts. */
  function Accepted<D>(t: Tracked<D>, ins: seq<(Point, D)>, maxDistance: int): seq<(nat, nat)>
    requires t.Valid() && |ins| > 0
  {
    Matching(DistanceMatrix(t, ins), maxDistance)
  }

  /** The accepted pairs index a tracked id and an input, and no row or column occurs twice. */
  lemma AcceptedInRange<D>(t: Tracked<D>, ins: seq<(Point, D)>, maxDistance: int)
    requires t.Valid() && |ins| > 0
    ensures PairsIn(Accepted(t, ins, maxDistance), t.ids, ins)
    ensures OneToOne(Accepted(t, ins, maxDistance))
  {
    MatchingRules(DistanceMatrix(t, ins), maxDistance);
  }

  /** A valid state tracks no object exactly when it has no ids. */
  lemma NoObjects<D>(t: Tracked<D>)
    requires t.Valid()
    ensures |t.objects| == 0 <==> |t.ids| == 0
  {
    if |t.ids| > 0 {
      assert t.ids[0] in t.objects;
    } else {
      assert t.objects == map[];
    }
  }

  /** The ids of the tracked objects left unmatched, in id order (`unused_rows`). */
  function StaleIds<D>(t: Tracked<D>, acc: seq<(nat, nat)>): seq<nat>
  {
    Pick(t.ids, Unused(|t.ids|, RowsOf(acc)))
  }

  /** The inputs left unmatched, in box order (`unused_cols`). */
  function NewInputs<D>(ins: seq<(Point, D)>, acc: seq<(nat, nat)>): seq<(Point, D)>
  {
    Pick(ins, Unused(|ins|, ColsOf(acc)))
  }

  /** What the rest of `update` does with the accepted pairs `acc`: each matched object takes its
      input, then either the unmatched objects age (when there are at least as many objects as
      inputs) or the unmatched inputs are registered. */
  function Step<D>(t: Tracked<D>, ins: seq<(Point, D)>, acc: seq<(nat, nat)>, maxDisappeared: int): Tracked<D>
    requires PairsIn(acc, t.ids, ins)
  {
    var matched := MatchedAll(t, acc, t.ids, ins);
    if |t.ids| >= |ins| then AgedAll(matched, StaleIds(t, acc), maxDisappeared)
    else RegisteredAll(matched, NewInputs(ins, acc))
  }

  /** What `update(rects)` leaves: with no boxes every object ages; with nothing tracked every
      input is registered; otherwise the objects are matched greedily to the inputs and `Step`
      follows. */
  function Updated<D>(t: Tracked<D>, rects: seq<Rect>, maxDisappeared: int, maxDistance: int,
                      payload: Rect -> D): Tracked<D>
    requires t.Valid()
  {
    var ins := InputsOf(rects, payload);
    if |rects| == 0 then AgedAll(t, t.ids, maxDisappeared)
    else if |t.objects| == 0 then RegisteredAll(t, ins)
    else
      AcceptedInRange(t, ins, maxDistance);
      Step(t, ins, Accepted(t, ins, maxDistance), maxDisappeared)
  }

  /** Picking increasing positions of an increasing sequence gives an increasing sequence. */
  lemma PickIncreasing(xs: seq<nat>, idx: seq<nat>)
    requires forall k :: 0 <= k < |idx| ==> idx[k] < |xs|
    requires Increasing(xs) && Increasing(idx)
    ensures Increasing(Pick(xs, idx)) && NoRepeats(Pick(xs, idx))
  {
  }

  /** The unmatched ids are distinct tracked ids, and a tracked id is among them exactly when it
      was not matched. */
  lemma StaleIdsProperties<D>(t: Tracked<D>, acc: seq<(nat, nat)>)
    requires Increasing(t.ids) && forall k :: 0 <= k < |acc| ==> acc[k].0 < |t.ids|
    ensures NoRepeats(StaleIds(t, acc))
    ensures forall id: nat :: id in StaleIds(t, acc) <==> id in t.ids && id !in MatchedIds(acc, t.ids)
  {
    var ids := t.ids;
    var rows := Unused(|ids|, RowsOf(acc));
    UnusedProperties(|ids|, RowsOf(acc));
    PickIncreasing(ids, rows);
    var stale := StaleIds(t, acc);
    forall id: nat | id in stale ensures id in ids && id !in MatchedIds(acc, ids) {
      var k :| 0 <= k < |stale| && stale[k] == id;
      StaleNotMatched(ids, acc, rows[k]);
    }
    forall id: nat | id in ids && id !in MatchedIds(acc, ids) ensures id in stale {
      var r :| 0 <= r < |ids| && ids[r] == id;
      forall p | p in acc ensures p.0 != r {
        assert ids[p.0] in MatchedIds(acc, ids);
      }
      assert r !in RowsOf(acc);
      assert r in rows;
      var k :| 0 <= k < |rows| && rows[k] == r;
      assert stale[k] == id;
    }
  }

  /** The id of a row no pair uses is not a matched id. */
  lemma StaleNotMatched(ids: seq<nat>, acc: seq<(nat, nat)>, r: nat)
    requires Increasing(ids) && r < |ids| && r !in RowsOf(acc)
    ensures ids[r] !in MatchedIds(acc, ids)
  {
    forall p | p in acc && p.0 < |ids| ensures ids[p.0] != ids[r] {
      assert p.0 in RowsOf(acc);
    }
  }

  /** The greedy pass consults only distances: every accepted pair's distance is the squared
      distance between the object's centroid and the input's, which is no larger than the one to
      any other input. */
  lemma NearestInput<D>(t: Tracked<D>, ins: seq<(Point, D)>, maxDistance: int)
    requires t.Valid() && |ins| > 0
    ensures forall p :: p in Accepted(t, ins, maxDistance) ==>
              && p.0 < |t.ids| && p.1 < |ins|
              && !TooFar(Dist2(t.objects[t.ids[p.0]], ins[p.1].0), maxDistance)
              && forall j :: 0 <= j < |ins| ==>
                   Dist2(t.objects[t.ids[p.0]], ins[p.1].0) <= Dist2(t.objects[t.ids[p.0]], ins[j].0)
  {
    var d := DistanceMatrix(t, ins);
    DistanceMatrixAt(t, ins);
    MatchingRules(d, maxDistance);
    forall p | p in Accepted(t, ins, maxDistance)
      ensures forall j :: 0 <= j < |ins| ==>
                Dist2(t.objects[t.ids[p.0]], ins[p.1].0) <= Dist2(t.objects[t.ids[p.0]], ins[j].0)
    {
      forall j | 0 <= j < |ins|
        ensures Dist2(t.objects[t.ids[p.0]], ins[p.1].0) <= Dist2(t.objects[t.ids[p.0]], ins[j].0)
      {
        assert d[p.0][p.1] <= d[p.0][j];
      }
    }
  }

  /** Entry (i, j) of the distance matrix is the squared distance from the i-th tracked centroid
      to the j-th input's. */
  lemma DistanceMatrixAt<D>(t: Tracked<D>, ins: seq<(Point, D)>)
    requires t.Valid()
    ensures |DistanceMatrix(t, ins)| == |t.ids|
    ensures forall i :: 0 <= i < |t.ids| ==> |DistanceMatrix(t, ins)[i]| == |ins|
    ensures forall i, j :: 0 <= i < |t.ids| && 0 <= j < |ins| ==>
              DistanceMatrix(t, ins)[i][j] == Dist2(t.objects[t.ids[i]], ins[j].0)
  {
    var objs, cs := CentroidsInOrder(t), Centers(ins);
    assert forall i :: 0 <= i < |t.ids| ==> objs[i] == t.objects[t.ids[i]];
    assert forall j :: 0 <= j < |ins| ==> cs[j] == ins[j].0;
  }

  /** The matching branch of `update` is `Step` on the accepted pairs. */
  lemma UpdatedIsStep<D>(t: Tracked<D>, rects: seq<Rect>, maxDisappeared: int, maxDistance: int,
                         payload: Rect -> D)
    requires t.Valid() && |rects| > 0 && |t.objects| > 0
    ensures PairsIn(Accepted(t, InputsOf(rects, payload), maxDistance), t.ids, InputsOf(rects, payload))
    ensures OneToOne(Accepted(t, InputsOf(rects, payload), maxDistance))
    ensures Updated(t, rects, maxDisappeared, maxDistance, payload) ==
            Step(t, InputsOf(rects, payload), Accepted(t, InputsOf(rects, payload), maxDistance), maxDisappeared)
  {
    AcceptedInRange(t, InputsOf(rects, payload), maxDistance);
  }

  lemma StepValid<D>(t: Tracked<D>, ins: seq<(Point, D)>, acc: seq<(nat, nat)>, maxDisappeared: int)
    requires t.Valid() && PairsIn(acc, t.ids, ins)
    ensures Step(t, ins, acc, maxDisappeared).Valid()
    ensures Step(t, ins, acc, maxDisappeared).nextId >= t.nextId
  {
    MatchedAllValid(t, acc, ins);
    var matched := MatchedAll(t, acc, t.ids, ins);
    if |t.ids| >= |ins| {
      AgedAllValid(matched, StaleIds(t, acc), maxDisappeared);
    } else {
      RegisteredAllValid(matched, NewInputs(ins, acc));
    }
  }

  /** Every accepted pair gives its object the input's centroid and payload with a counter of 0. */
  lemma StepMatched<D>(t: Tracked<D>, ins: seq<(Point, D)>, acc: seq<(nat, nat)>, maxDisappeared: int)
    requires t.Valid() && PairsIn(acc, t.ids, ins) && OneToOne(acc)
    ensures forall p :: p in acc ==> Entry(Step(t, ins, acc, maxDisappeared), t.ids[p.0]) == Some((ins[p.1].0, ins[p.1].1, 0))
  {
    IncreasingDistinct(t.ids);
    MatchedAllEntries(t, acc, t.ids, ins);
    MatchedAllKeeps(t, acc, t.ids, ins);
    var matched := MatchedAll(t, acc, t.ids, ins);
    if |t.ids| >= |ins| {
      StaleIdsProperties(t, acc);
      AgedAllEntries(matched, StaleIds(t, acc), maxDisappeared);
      forall p | p in acc ensures t.ids[p.0] in MatchedIds(acc, t.ids) { }
    } else {
      ValidEntries(t);
      RegisteredAllEntries(matched, NewInputs(ins, acc));
      forall p | p in acc ensures t.ids[p.0] < t.nextId {
        assert t.ids[p.0] in t.ids;
      }
    }
  }

  /** With at least as many objects as inputs, the unmatched objects age and no id is issued. */
  lemma StepStale<D>(t: Tracked<D>, ins: seq<(Point, D)>, acc: seq<(nat, nat)>, maxDisappeared: int)
    requires t.Valid() && PairsIn(acc, t.ids, ins) && OneToOne(acc) && |t.ids| >= |ins|
    ensures Step(t, ins, acc, maxDisappeared).nextId == t.nextId
    ensures forall id: nat :: id !in MatchedIds(acc, t.ids) ==>
              Entry(Step(t, ins, acc, maxDisappeared), id) == AgedEntry(Entry(t, id), maxDisappeared)
  {
    IncreasingDistinct(t.ids);
    MatchedAllEntries(t, acc, t.ids, ins);
    MatchedAllKeeps(t, acc, t.ids, ins);
    var matched := MatchedAll(t, acc, t.ids, ins);
    StaleIdsProperties(t, acc);
    AgedAllEntries(matched, StaleIds(t, acc), maxDisappeared);
    AgedAllNextId(matched, StaleIds(t, acc), maxDisappeared);
    ValidEntries(t);
  }

  /** With fewer objects than inputs, the unmatched inputs are registered in order under the next
      ids, and the unmatched objects are untouched. */
  lemma StepNew<D>(t: Tracked<D>, ins: seq<(Point, D)>, acc: seq<(nat, nat)>, maxDisappeared: int)
    requires PairsIn(acc, t.ids, ins) && OneToOne(acc) && NoRepeats(t.ids) && |t.ids| < |ins|
    ensures Step(t, ins, acc, maxDisappeared).nextId == t.nextId + |NewInputs(ins, acc)|
    ensures forall k :: 0 <= k < |NewInputs(ins, acc)| ==>
              Entry(Step(t, ins, acc, maxDisappeared), t.nextId + k) ==
              Some((NewInputs(ins, acc)[k].0, NewInputs(ins, acc)[k].1, 0))
    ensures forall id: nat ::
              (id !in MatchedIds(acc, t.ids) && (id < t.nextId || id >= t.nextId + |NewInputs(ins, acc)|)) ==>
              Entry(Step(t, ins, acc, maxDisappeared), id) == Entry(t, id)
  {
    MatchedAllEntries(t, acc, t.ids, ins);
    MatchedAllKeeps(t, acc, t.ids, ins);
    RegisteredAllEntries(MatchedAll(t, acc, t.ids, ins), NewInputs(ins, acc));
  }

  /** `update` keeps the state valid and never reuses an id. */
  lemma UpdatedValid<D>(t: Tracked<D>, rects: seq<Rect>, maxDisappeared: int, maxDistance: int,
                        payload: Rect -> D)
    requires t.Valid()
    ensures Updated(t, rects, maxDisappeared, maxDistance, payload).Valid()
    ensures Updated(t, rects, maxDisappeared, maxDistance, payload).nextId >= t.nextId
  {
    var ins := InputsOf(rects, payload);
    if |rects| == 0 {
      AgedAllValid(t, t.ids, maxDisappeared);
    } else if |t.objects| == 0 {
      RegisteredAllValid(t, ins);
    } else {
      UpdatedIsStep(t, rects, maxDisappeared, maxDistance, payload);
      StepValid(t, ins, Accepted(t, ins, maxDistance), maxDisappeared);
    }
  }

  /** With no boxes every tracked object ages (and is deregistered once its counter passes the
      bound); nothing else changes and no id is issued. */
  lemma UpdatedNoBoxes<D>(t: Tracked<D>, maxDisappeared: int, maxDistance: int, payload: Rect -> D)
    requires t.Valid()
    ensures Updated(t, [], maxDisappeared, maxDistance, payload).nextId == t.nextId
    ensures forall id: nat :: Entry(Updated(t, [], maxDisappeared, maxDistance, payload), id) ==
                              AgedEntry(Entry(t, id), maxDisappeared)
  {
    IncreasingDistinct(t.ids);
    AgedAllEntries(t, t.ids, maxDisappeared);
    AgedAllNextId(t, t.ids, maxDisappeared);
    ValidEntries(t);
  }

  /** With nothing tracked every box is registered, in box order, under consecutive new ids with
      its centroid and payload and a counter of 0; no other id is tracked. */
  lemma UpdatedFirstFrame<D>(t: Tracked<D>, rects: seq<Rect>, maxDisappeared: int, maxDistance: int,
                             payload: Rect -> D)
    requires t.Valid() && |rects| > 0 && |t.objects| == 0
    ensures Updated(t, rects, maxDisappeared, maxDistance, payload).nextId == t.nextId + |rects|
    ensures forall k :: 0 <= k < |rects| ==>
              Entry(Updated(t, rects, maxDisappeared, maxDistance, payload), t.nextId + k) ==
              Some((Centroid(rects[k]), payload(rects[k]), 0))
    ensures forall id: nat :: (id < t.nextId || id >= t.nextId + |rects|) ==>
              Entry(Updated(t, rects, maxDisappeared, maxDistance, payload), id).None?
  {
    var ins := InputsOf(rects, payload);
    var u := Updated(t, rects, maxDisappeared, maxDistance, payload);
    assert u == RegisteredAll(t, ins);
    NoObjects(t);
    ValidEntries(t);
    RegisteredAllEntries(t, ins);
    forall k | 0 <= k < |rects| ensures Entry(u, t.nextId + k) == Some((Centroid(rects[k]), payload(rects[k]), 0)) {
      assert ins[k] == (Centroid(rects[k]), payload(rects[k]));
    }
  }

  /** When boxes meet tracked objects, every accepted pair gives its object the box's centroid
      and payload and resets its counter. */
  lemma UpdatedMatched<D>(t: Tracked<D>, rects: seq<Rect>, maxDisappeared: int, maxDistance: int,
                          payload: Rect -> D)
    requires t.Valid() && |rects| > 0 && |t.objects| > 0
    ensures forall p :: p in Accepted(t, InputsOf(rects, payload), maxDistance) ==>
              && p.0 < |t.ids| && p.1 < |rects|
              && Entry(Updated(t, rects, maxDisappeared, maxDistance, payload), t.ids[p.0]) ==
                 Some((Centroid(rects[p.1]), payload(rects[p.1]), 0))
  {
    var ins := InputsOf(rects, payload);
    var acc := Accepted(t, ins, maxDistance);
    UpdatedIsStep(t, rects, maxDisappeared, maxDistance, payload);
    StepMatched(t, ins, acc, maxDisappeared);
    forall p | p in acc ensures p.0 < |t.ids| && p.1 < |rects| && ins[p.1] == (Centroid(rects[p.1]), payload(rects[p.1])) {
      var k :| 0 <= k < |acc| && acc[k] == p;
    }
  }

  /** When there are at least as many tracked objects as boxes, every object left unmatched ages
      (and is deregistered once its counter passes the bound), unmatched boxes are dropped, and no
      id is issued. */
  lemma UpdatedUnmatchedAged<D>(t: Tracked<D>, rects: seq<Rect>, maxDisappeared: int, maxDistance: int,
                                payload: Rect -> D)
    requires t.Valid() && |rects| > 0 && |t.objects| > 0 && |t.ids| >= |rects|
    ensures Updated(t, rects, maxDisappeared, maxDistance, payload).nextId == t.nextId
    ensures forall id: nat :: id !in MatchedIds(Accepted(t, InputsOf(rects, payload), maxDistance), t.ids) ==>
              Entry(Updated(t, rects, maxDisappeared, maxDistance, payload), id) ==
              AgedEntry(Entry(t, id), maxDisappeared)
  {
    var ins := InputsOf(rects, payload);
    UpdatedIsStep(t, rects, maxDisappeared, maxDistance, payload);
    StepStale(t, ins, Accepted(t, ins, maxDistance), maxDisappeared);
  }

  /** When there are fewer tracked objects than boxes, every box left unmatched is registered, in
      box order, under consecutive new ids; unmatched objects keep their entries untouched. */
  lemma UpdatedUnmatchedNew<D>(t: Tracked<D>, rects: seq<Rect>, maxDisappeared: int, maxDistance: int,
                               payload: Rect -> D)
    requires t.Valid() && |rects| > 0 && |t.objects| > 0 && |t.ids| < |rects|
    ensures var cols := Unused(|rects|, ColsOf(Accepted(t, InputsOf(rects, payload), maxDistance)));
      Updated(t, rects, maxDisappeared, maxDistance, payload).nextId == t.nextId + |cols|
    ensures var cols := Unused(|rects|, ColsOf(Accepted(t, InputsOf(rects, payload), maxDistance)));
      forall k :: 0 <= k < |cols| ==>
        Entry(Updated(t, rects, maxDisappeared, maxDistance, payload), t.nextId + k) ==
        Some((Centroid(rects[cols[k]]), payload(rects[cols[k]]), 0))
    ensures var cols := Unused(|rects|, ColsOf(Accepted(t, InputsOf(rects, payload), maxDistance)));
      forall id: nat ::
        (id !in MatchedIds(Accepted(t, InputsOf(rects, payload), maxDistance), t.ids) && (id < t.nextId || id >= t.nextId + |cols|)) ==>
        Entry(Updated(t, rects, maxDisappeared, maxDistance, payload), id) == Entry(t, id)
  {
    var ins := InputsOf(rects, payload);
    var acc := Accepted(t, ins, maxDistance);
    var cols := Unused(|rects|, ColsOf(acc));
    var u := Updated(t, rects, maxDisappeared, maxDistance, payload);
    UpdatedIsStep(t, rects, maxDisappeared, maxDistance, payload);
    IncreasingDistinct(t.ids);
    StepNew(t, ins, acc, maxDisappeared);
    forall k | 0 <= k < |cols| ensures Entry(u, t.nextId + k) == Some((Centroid(rects[cols[k]]), payload(rects[cols[k]]), 0)) {
      assert NewInputs(ins, acc)[k] == ins[cols[k]];
    }
  }
  /** Every tracked object's disappearance counter is at most `maxDisappeared`. */
  ghost predicate CountersWithin<D>(t: Tracked<D>, maxDisappeared: int)
  {
    forall id: nat :: Entry(t, id).Some? ==> Entry(t, id).value.2 <= maxDisappeared
  }

  /** With a non-negative bound, `update` keeps every counter within it: new and matched objects
      start at 0, an object that ages past the bound is deregistered, and the rest are untouched. */
  lemma UpdatedCountersWithin<D>(t: Tracked<D>, rects: seq<Rect>, maxDisappeared: int, maxDistance: int,
                                 payload: Rect -> D)
    requires t.Valid() && maxDisappeared >= 0 && CountersWithin(t, maxDisappeared)
    ensures CountersWithin(Updated(t, rects, maxDisappeared, maxDistance, payload), maxDisappeared)
  {
    var ins := InputsOf(rects, payload);
    var u := Updated(t, rects, maxDisappeared, maxDistance, payload);
    if |rects| == 0 {
      UpdatedNoBoxes(t, maxDisappeared, maxDistance, payload);
    } else if |t.objects| == 0 {
      UpdatedFirstFrame(t, rects, maxDisappeared, maxDistance, payload);
      forall id: nat | t.nextId <= id < t.nextId + |rects| ensures Entry(u, id).Some? && Entry(u, id).value.2 == 0 {
        var k := id - t.nextId;
        assert Entry(u, t.nextId + k) == Some((Centroid(rects[k]), payload(rects[k]), 0));
      }
    } else {
      UpdatedIsStep(t, rects, maxDisappeared, maxDistance, payload);
      StepCounters(t, ins, Accepted(t, ins, maxDistance), maxDisappeared);
    }
  }

  lemma StepCounters<D>(t: Tracked<D>, ins: seq<(Point, D)>, acc: seq<(nat, nat)>, maxDisappeared: int)
    requires t.Valid() && PairsIn(acc, t.ids, ins) && OneToOne(acc)
    requires maxDisappeared >= 0 && CountersWithin(t, maxDisappeared)
    ensures CountersWithin(Step(t, ins, acc, maxDisappeared), maxDisappeared)
  {
    var u := Step(t, ins, acc, maxDisappeared);
    StepMatched(t, ins, acc, maxDisappeared);
    forall id: nat | id in MatchedIds(acc, t.ids) ensures Entry(u, id).Some? && Entry(u, id).value.2 == 0 {
      var p :| p in acc && p.0 < |t.ids| && t.ids[p.0] == id;
    }
    if |t.ids| >= |ins| {
      StepStale(t, ins, acc, maxDisappeared);
    } else {
      IncreasingDistinct(t.ids);
      StepNew(t, ins, acc, maxDisappeared);
      var added := NewInputs(ins, acc);
      forall id: nat | t.nextId <= id < t.nextId + |added| ensures Entry(u, id).Some? && Entry(u, id).value.2 == 0 {
        var k := id - t.nextId;
        assert Entry(u, t.nextId + k) == Some((added[k].0, added[k].1, 0));
      }
    }
  }

  /** The stale ids are distinct and each still has an entry after the matching, so they can be
      aged one at a time. */
  lemma StaleReady<D>(t: Tracked<D>, ins: seq<(Point, D)>, acc: seq<(nat, nat)>)
    requires t.Valid() && PairsIn(acc, t.ids, ins) && OneToOne(acc)
    ensures NoRepeats(StaleIds(t, acc))
    ensures forall k :: 0 <= k < |StaleIds(t, acc)| ==> Entry(MatchedAll(t, acc, t.ids, ins), StaleIds(t, acc)[k]).Some?
  {
    StaleIdsProperties(t, acc);
    IncreasingDistinct(t.ids);
    MatchedAllEntries(t, acc, t.ids, ins);
    ValidEntries(t);
    forall k | 0 <= k < |StaleIds(t, acc)|
      ensures Entry(MatchedAll(t, acc, t.ids, ins), StaleIds(t, acc)[k]).Some?
    {
      assert StaleIds(t, acc)[k] in StaleIds(t, acc);
    }
  }

  /** One more candidate for the greedy pass. */
  lemma GreedyStep(cands: seq<(nat, nat)>, d: seq<seq<nat>>, maxDistance: int, k: nat)
    requires InMatrix(cands, d) && k < |cands|
    ensures InMatrix(cands[..k], d) && InMatrix(cands[..k + 1], d)
    ensures Greedy(cands[..k + 1], d, maxDistance) ==
      if || cands[k].0 in RowsOf(Greedy(cands[..k], d, maxDistance))
         || cands[k].1 in ColsOf(Greedy(cands[..k], d, maxDistance))
         || TooFar(d[cands[k].0][cands[k].1], maxDistance)
      then Greedy(cands[..k], d, maxDistance)
      else Greedy(cands[..k], d, maxDistance) + [(cands[k].0, cands[k].1)]
  {
    assert cands[..k + 1][..k] == cands[..k];
  }

  /** One more accepted pair for the matching fold. */
  lemma MatchedAllStep<D>(t: Tracked<D>, acc: seq<(nat, nat)>, objectIds: seq<nat>, ins: seq<(Point, D)>,
                          p: (nat, nat))
    requires PairsIn(acc, objectIds, ins) && p.0 < |objectIds| && p.1 < |ins|
    ensures PairsIn(acc + [p], objectIds, ins)
    ensures MatchedAll(t, acc + [p], objectIds, ins) ==
            Matched(MatchedAll(t, acc, objectIds, ins), objectIds[p.0], ins[p.1].0, ins[p.1].1)
    ensures RowsOf(acc + [p]) == RowsOf(acc) + {p.0} && ColsOf(acc + [p]) == ColsOf(acc) + {p.1}
  {
    assert (acc + [p])[..|acc|] == acc;
  }

  /** The tracker object. `payload` computes what is kept per object besides its centroid:
      `BoxSize` for the tracker with `bbox_dims` (defaults 20 and 80 for the two bounds), nothing
      for the copy without it (defaults 50 and 50). */
  class CentroidTracker<D> {
    var ids: seq<nat>
    var objects: map<nat, Point>
    var dims: map<nat, D>
    var disappeared: map<nat, nat>
    var nextId: nat
    const maxDisappeared: int
    const maxDistance: int
    const payload: Rect -> D

    function State(): Tracked<D>
      reads this
    {
      Tracked(ids, objects, dims, disappeared, nextId)
    }

    ghost predicate Valid()
      reads this
    {
      State().Valid()
    }

    constructor (maxDisappeared: int, maxDistance: int, payload: Rect -> D)
      ensures State() == Initial() && Valid()
      ensures this.maxDisappeared == maxDisappeared && this.maxDistance == maxDistance
      ensures this.payload == payload
    {
      ids, objects, dims, disappeared, nextId := [], map[], map[], map[], 0;
      this.maxDisappeared := maxDisappeared;
      this.maxDistance := maxDistance;
      this.payload := payload;
    }

    /** `register(centroid, bbox_dim)`. */
    method Register(c: Point, d: D)
      modifies this
      ensures State() == Registered(old(State()), c, d)
    {
      ids := ids + [nextId];
      objects := objects[nextId := c];
      dims := dims[nextId := d];
      disappeared := disappeared[nextId := 0];
      nextId := nextId + 1;
    }

    /** `deregister(object_id)`: a KeyError, with nothing changed, when the id is not tracked. The
        three maps must agree on the id, as every method keeps them. */
    method Deregister(id: nat) returns (r: Result<()>)
      requires id in objects ==> id in dims && id in disappeared
      modifies this
      ensures id in old(objects) ==> r == Ok(()) && State() == Deregistered(old(State()), id)
      ensures id !in old(objects) ==> r == Err(KeyError) && State() == old(State())
    {
      if id !in objects {
        return Err(KeyError);
      }
      ids := Without(ids, id);
      objects := objects - {id};
      dims := dims - {id};
      disappeared := disappeared - {id};
      r := Ok(());
    }

    /** `self.disappeared[object_id] += 1`, then `deregister` when it exceeds the maximum. */
    method AgeOne(id: nat)
      requires Entry(State(), id).Some?
      modifies this
      ensures State() == Aged(old(State()), id, maxDisappeared)
    {
      ghost var prev := State();
      disappeared := disappeared[id := disappeared[id] + 1];
      if disappeared[id] > maxDisappeared {
        var _ := Deregister(id);
        DeregisteredCounted(prev, id, prev.disappeared[id] + 1);
      }
    }

    /** The ageing loop: each id of `xs` in turn. */
    method AgeEach(xs: seq<nat>)
      requires NoRepeats(xs) && forall k :: 0 <= k < |xs| ==> Entry(State(), xs[k]).Some?
      modifies this
      ensures State() == AgedAll(old(State()), xs, maxDisappeared)
    {
      ghost var s0 := State();
      var i := 0;
      while i < |xs|
        invariant 0 <= i <= |xs|
        invariant State() == AgedAll(s0, xs[..i], maxDisappeared)
        invariant forall j :: i <= j < |xs| ==> Entry(State(), xs[j]).Some?
      {
        AgedEntries(State(), xs[i], maxDisappeared);
        AgeOne(xs[i]);
        assert xs[..i + 1][..i] == xs[..i];
        i := i + 1;
      }
      assert xs[..|xs|] == xs;
    }

    /** The registering loop: each (centroid, payload) in turn. */
    method RegisterEach(ins: seq<(Point, D)>)
      modifies this
      ensures State() == RegisteredAll(old(State()), ins)
    {
      ghost var s0 := State();
      var i := 0;
      while i < |ins|
        invariant 0 <= i <= |ins|
        invariant State() == RegisteredAll(s0, ins[..i])
      {
        Register(ins[i].0, ins[i].1);
        assert ins[..i + 1][..i] == ins[..i];
        i := i + 1;
      }
      assert ins[..|ins|] == ins;
    }
    /** The loop filling `input_centroids` and `input_bbox_dims`. */
    method Inputs(rects: seq<Rect>) returns (ins: seq<(Point, D)>)
      ensures ins == InputsOf(rects, payload)
    {
      ins := [];
      var i := 0;
      while i < |rects|
        invariant 0 <= i <= |rects| && |ins| == i
        invariant forall k :: 0 <= k < i ==> ins[k] == (Centroid(rects[k]), payload(rects[k]))
      {
        ins := ins + [(Centroid(rects[i]), payload(rects[i]))];
        i := i + 1;
      }
    }

    /** The body of the matching loop for an accepted pair: the object takes the input's centroid
        and payload, and its counter restarts at 0. */
    method MatchOne(id: nat, c: Point, d: D)
      modifies this
      ensures State() == Matched(old(State()), id, c, d)
    {
      objects := objects[id := c];
      dims := dims[id := d];
      disappeared := disappeared[id := 0];
    }

    /** One pass of the matching loop, on the candidate (row, col): skipped when the row or the
        column is used or the distance is too far; otherwise the object of the row takes the input
        of the column, and both are marked used. `acc` is the list of pairs accepted so far and `s0`
        the state before the loop. */
    method Consider(row: nat, col: nat, d: seq<seq<nat>>, objectIds: seq<nat>, ins: seq<(Point, D)>,
                    usedRows: set<nat>, usedCols: set<nat>, ghost s0: Tracked<D>, ghost acc: seq<(nat, nat)>)
      returns (rows: set<nat>, cols: set<nat>, ghost acc2: seq<(nat, nat)>)
      requires row < |objectIds| && col < |ins| && row < |d| && col < |d[row]|
      requires PairsIn(acc, objectIds, ins) && usedRows == RowsOf(acc) && usedCols == ColsOf(acc)
      requires State() == MatchedAll(s0, acc, objectIds, ins)
      modifies this
      ensures acc2 == if row in RowsOf(acc) || col in ColsOf(acc) || TooFar(d[row][col], maxDistance)
                      then acc else acc + [(row, col)]
      ensures PairsIn(acc2, objectIds, ins) && rows == RowsOf(acc2) && cols == ColsOf(acc2)
      ensures State() == MatchedAll(s0, acc2, objectIds, ins)
    {
      if row in usedRows || col in usedCols {
        return usedRows, usedCols, acc;
      }
      if TooFar(d[row][col], maxDistance) {
        return usedRows, usedCols, acc;
      }
      MatchedAllStep(s0, acc, objectIds, ins, (row, col));
      MatchOne(objectIds[row], ins[col].0, ins[col].1);
      rows, cols, acc2 := usedRows + {row}, usedCols + {col}, acc + [(row, col)];
    }

    /** The matching loop over the (row, column) candidates, in order. */
    method MatchEach(cands: seq<(nat, nat)>, d: seq<seq<nat>>, objectIds: seq<nat>, ins: seq<(Point, D)>)
      returns (usedRows: set<nat>, usedCols: set<nat>)
      requires InMatrix(cands, d) && |d| == |objectIds|
      requires forall i :: 0 <= i < |d| ==> |d[i]| == |ins|
      modifies this
      ensures PairsIn(Greedy(cands, d, maxDistance), objectIds, ins)
      ensures State() == MatchedAll(old(State()), Greedy(cands, d, maxDistance), objectIds, ins)
      ensures usedRows == RowsOf(Greedy(cands, d, maxDistance))
      ensures usedCols == ColsOf(Greedy(cands, d, maxDistance))
    {
      ghost var s0 := State();
      ghost var acc: seq<(nat, nat)> := [];
      usedRows, usedCols := {}, {};
      var k := 0;
      while k < |cands|
        invariant 0 <= k <= |cands|
        invariant InMatrix(cands[..k], d) && acc == Greedy(cands[..k], d, maxDistance)
        invariant PairsIn(acc, objectIds, ins)
        invariant usedRows == RowsOf(acc) && usedCols == ColsOf(acc)
        invariant State() == MatchedAll(s0, acc, objectIds, ins)
      {
        var row, col := cands[k].0, cands[k].1;
        GreedyStep(cands, d, maxDistance, k);
        usedRows, usedCols, acc := Consider(row, col, d, objectIds, ins, usedRows, usedCols, s0, acc);
        k := k + 1;
      }
      assert cands[..|cands|] == cands;
    }

    /** The matching branch of `update`: the distance matrix and its candidates (the results of
        `cdist`, `argsort` and `argmin`, computed by functions), the matching loop, then ageing the
        unused rows or registering the unused columns. */
    method Track(ins: seq<(Point, D)>)
      requires Valid() && |ins| > 0
      modifies this
      ensures PairsIn(Accepted(old(State()), ins, maxDistance), old(ids), ins)
      ensures State() == Step(old(State()), ins, Accepted(old(State()), ins, maxDistance), maxDisappeared)
    {
      ghost var s0 := State();
      ghost var acc := Accepted(s0, ins, maxDistance);
      AcceptedInRange(s0, ins, maxDistance);
      var objectIds := ids;
      var d := DistanceMatrix(State(), ins);
      var cands := Candidates(d);
      var usedRows, usedCols := MatchEach(cands, d, objectIds, ins);
      // d.shape[0] is the number of objects and d.shape[1] the number of inputs.
      var unusedRows := Unused(|objectIds|, usedRows);
      var unusedCols := Unused(|ins|, usedCols);
      if |objectIds| >= |ins| {
        StaleReady(s0, ins, acc);
        AgeEach(Pick(objectIds, unusedRows));
      } else {
        RegisterEach(Pick(ins, unusedCols));
      }
    }

    /** `update(rects)`: the new state is `Updated` of the old, and the maps are returned. */
    method Update(rects: seq<Rect>) returns (objs: map<nat, Point>, ds: map<nat, D>)
      requires Valid()
      modifies this
      ensures State() == Updated(old(State()), rects, maxDisappeared, maxDistance, payload) && Valid()
      ensures objs == objects && ds == dims
    {
      ghost var s0 := State();
      UpdatedValid(s0, rects, maxDisappeared, maxDistance, payload);
      if |rects| == 0 {
        IncreasingDistinct(ids);
        ValidEntries(s0);
        AgeEach(ids);
        return objects, dims;
      }
      var ins := Inputs(rects);
      if |objects| == 0 {
        RegisterEach(ins);
      } else {
        UpdatedIsStep(s0, rects, maxDisappeared, maxDistance, payload);
        Track(ins);
      }
      objs, ds := objects, dims;
    }
  }
}
