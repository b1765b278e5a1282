/** The arithmetic that both centroid trackers (examples/modules/object_tracker/centroid_tracker.py
    and examples/modules/object_counter/centroid_tracker.py) use to match detections to tracked
    objects: box centroids, distances, `argmin`, `argsort`, and the greedy pairing pass.
    Distances are kept squared, so they stay integers: comparing a distance with a bound is
    comparing squares (`TooFar`), and ordering by distance is ordering by squared distance. */
module CentroidMatching {
  import opened Points

  /** A detection box `(start_x, start_y, end_x, end_y)`. */
  datatype Rect = Rect(startX: int, startY: int, endX: int, endY: int)

  /** A box's `(w, h)`. */
  datatype Size = Size(w: int, h: int)

  /** `int(a / 2.0)`: half of `a`, truncated toward zero (Dafny's `/` rounds down instead). */
  function HalfTrunc(a: int): int
  {
    if a >= 0 then a / 2 else -((-a) / 2)
  }

  /** Twice the result is `a` or one step closer to zero than `a`, and halving commutes with
      negation, as truncation toward zero does. */
  lemma HalfTruncProperties(a: int)
    ensures a >= 0 ==> 0 <= a - 2 * HalfTrunc(a) <= 1
    ensures a < 0 ==> -1 <= a - 2 * HalfTrunc(a) <= 0
    ensures HalfTrunc(-a) == -HalfTrunc(a)
  {
  }

  /** The centroid of a box: `(int((start_x + end_x) / 2.0), int((start_y + end_y) / 2.0))`. */
  function Centroid(r: Rect): Point
  {
    Point(HalfTrunc(r.startX + r.endX), HalfTrunc(r.startY + r.endY))
  }

  /** `(end_x - start_x, end_y - start_y)`. */
  function BoxSize(r: Rect): Size
  {
    Size(r.endX - r.startX, r.endY - r.startY)
  }

  /** The squared Euclidean distance between two centroids. */
  function Dist2(p: Point, q: Point): nat
  {
    (p.x - q.x) * (p.x - q.x) + (p.y - q.y) * (p.y - q.y)
  }

  /** `d > max_distance`, for the distance d whose square is `d2`. */
  predicate TooFar(d2: nat, maxDistance: int)
  {
    maxDistance < 0 || d2 > maxDistance * maxDistance
  }

  /** `TooFar` is the comparison of the distance itself: for the non-negative e with e * e == d2,
      e > maxDistance exactly when `TooFar(d2, maxDistance)`. */
  lemma TooFarIsDistance(d2: nat, maxDistance: int, e: real)
    requires e >= 0.0 && e * e == d2 as real
    ensures TooFar(d2, maxDistance) <==> e > maxDistance as real
  {
    var m := maxDistance as real;
    if maxDistance >= 0 {
      assert (maxDistance * maxDistance) as real == m * m;
      if e > m {
        MulPositive(e - m, e + m);
        assert e * e - m * m == (e - m) * (e + m);
      } else {
        MulNonNegative(m - e, m + e);
        assert m * m - e * e == (m - e) * (m + e);
      }
    }
  }

  lemma MulPositive(a: real, b: real)
    requires a > 0.0 && b > 0.0
    ensures a * b > 0.0
  {
  }

  lemma MulNonNegative(a: real, b: real)
    requires a >= 0.0 && b >= 0.0
    ensures a * b >= 0.0
  {
  }

  /** `dist.cdist(object_centroids, input_centroids)`, squared: row i, column j is the squared
      distance from tracked centroid i to input centroid j. */
  function Distances(objs: seq<Point>, ins: seq<Point>): (d: seq<seq<nat>>)
    ensures |d| == |objs|
    ensures forall i :: 0 <= i < |d| ==> |d[i]| == |ins|
    ensures forall i, j :: 0 <= i < |objs| && 0 <= j < |ins| ==> d[i][j] == Dist2(objs[i], ins[j])
  {
    seq(|objs|, i requires 0 <= i < |objs| => seq(|ins|, j requires 0 <= j < |ins| => Dist2(objs[i], ins[j])))
  }

  /** `argmin` of a row: the first position of its smallest entry. */
  function ArgMin(row: seq<int>): (k: nat)
    requires |row| > 0
    ensures k < |row|
    ensures forall j :: 0 <= j < |row| ==> row[k] <= row[j]
    ensures forall j :: 0 <= j < k ==> row[j] > row[k]
    decreases |row|
  {
    if |row| == 1 then 0
    else
      var m := ArgMin(row[..|row| - 1]);
      assert forall j :: 0 <= j < |row| - 1 ==> row[..|row| - 1][j] == row[j];
      if row[|row| - 1] < row[m] then |row| - 1 else m
  }

  /** `d.min(axis=1)`: the smallest entry of every row. */
  function RowMins(d: seq<seq<nat>>): (mins: seq<int>)
    requires forall i :: 0 <= i < |d| ==> |d[i]| > 0
    ensures |mins| == |d|
  {
    seq(|d|, i requires 0 <= i < |d| => d[i][ArgMin(d[i])])
  }

  /** Index a sorts before index b: a smaller key, or the same key and a smaller index. */
  predicate Before(keys: seq<int>, a: nat, b: nat)
    requires a < |keys| && b < |keys|
  {
    keys[a] < keys[b] || (keys[a] == keys[b] && a < b)
  }

  /** Inserts index i after every index whose key is at most its own. */
  function Insert(sorted: seq<nat>, i: nat, keys: seq<int>): (r: seq<nat>)
    requires i < |keys| && forall k :: 0 <= k < |sorted| ==> sorted[k] < |keys|
    ensures |r| == |sorted| + 1
    ensures forall x: nat :: x in r <==> x in sorted || x == i
    ensures forall k :: 0 <= k < |r| ==> r[k] < |keys|
    decreases |sorted|
  {
    if |sorted| == 0 then [i]
    else if keys[sorted[0]] <= keys[i] then [sorted[0]] + Insert(sorted[1..], i, keys)
    else [i] + sorted
  }

  /** The indices below n, sorted by key. */
  function ArgSortUpTo(keys: seq<int>, n: nat): (r: seq<nat>)
    requires n <= |keys|
    ensures |r| == n
    ensures forall x: nat :: x in r <==> x < n
    decreases n
  {
    if n == 0 then []
    else
      var prev := ArgSortUpTo(keys, n - 1);
      Insert(prev, n - 1, keys)
  }

  /** `argsort`, as a stable sort: the indices ordered by key, equal keys in index order. */
  function ArgSort(keys: seq<int>): (r: seq<nat>)
    ensures |r| == |keys| && forall k :: 0 <= k < |r| ==> r[k] < |keys|
  {
    var r := ArgSortUpTo(keys, |keys|);
    assert forall k :: 0 <= k < |r| ==> r[k] in r;
    r
  }

  predicate SortedBy(keys: seq<int>, r: seq<nat>)
    requires forall k :: 0 <= k < |r| ==> r[k] < |keys|
  {
    forall a, b :: 0 <= a < b < |r| ==> Before(keys, r[a], r[b])
  }

  lemma {:induction false} InsertSorted(sorted: seq<nat>, i: nat, keys: seq<int>)
    requires i < |keys| && forall k :: 0 <= k < |sorted| ==> sorted[k] < i
    requires SortedBy(keys, sorted)
    ensures SortedBy(keys, Insert(sorted, i, keys))
    decreases |sorted|
  {
    if |sorted| > 0 {
      var r := Insert(sorted, i, keys);
      if keys[sorted[0]] <= keys[i] {
        var rest := sorted[1..];
        assert SortedBy(keys, rest) by {
          forall a, b | 0 <= a < b < |rest| ensures Before(keys, rest[a], rest[b]) {
            assert rest[a] == sorted[a + 1] && rest[b] == sorted[b + 1];
          }
        }
        assert forall k :: 0 <= k < |rest| ==> rest[k] == sorted[k + 1];
        InsertSorted(rest, i, keys);
        var tail := Insert(rest, i, keys);
        assert r == [sorted[0]] + tail;
        forall a, b | 0 <= a < b < |r| ensures Before(keys, r[a], r[b]) {
          if a == 0 {
            assert r[b] == tail[b - 1] && r[b] in tail;
            if r[b] != i {
              var k :| 0 <= k < |rest| && rest[k] == r[b];
              assert Before(keys, sorted[0], sorted[k + 1]);
            }
          } else {
            assert r[a] == tail[a - 1] && r[b] == tail[b - 1];
          }
        }
      } else {
        assert r == [i] + sorted;
        forall a, b | 0 <= a < b < |r| ensures Before(keys, r[a], r[b]) {
          if a == 0 {
            assert r[b] == sorted[b - 1];
            if b > 1 { assert Before(keys, sorted[0], sorted[b - 1]); }
          } else {
            assert r[a] == sorted[a - 1] && r[b] == sorted[b - 1];
          }
        }
      }
    }
  }

  /** No index occurs twice. */
  predicate NoRepeats(s: seq<nat>)
  {
    forall a, b :: 0 <= a < b < |s| ==> s[a] != s[b]
  }

  lemma {:induction false} InsertDistinct(sorted: seq<nat>, i: nat, keys: seq<int>)
    requires i < |keys| && forall k :: 0 <= k < |sorted| ==> sorted[k] < |keys|
    requires i !in sorted && NoRepeats(sorted)
    ensures NoRepeats(Insert(sorted, i, keys))
    decreases |sorted|
  {
    if |sorted| > 0 && keys[sorted[0]] <= keys[i] {
      var rest := sorted[1..];
      assert sorted == [sorted[0]] + rest;
      NoRepeatsTail(sorted[0], rest);
      InsertDistinct(rest, i, keys);
      ConsNoRepeats(sorted[0], Insert(rest, i, keys));
    } else if |sorted| > 0 {
      ConsNoRepeats(i, sorted);
    }
  }

  /** An index not in a list without repeats can go in front. */
  lemma ConsNoRepeats(x: nat, s: seq<nat>)
    requires x !in s && NoRepeats(s)
    ensures NoRepeats([x] + s)
  {
    var r := [x] + s;
    forall a, b | 0 <= a < b < |r| ensures r[a] != r[b] {
      assert r[b] == s[b - 1];
      if a > 0 { assert r[a] == s[a - 1]; }
    }
  }

  /** The tail of a list without repeats has none, and lacks the head. */
  lemma NoRepeatsTail(x: nat, s: seq<nat>)
    requires NoRepeats([x] + s)
    ensures x !in s && NoRepeats(s)
  {
    var r := [x] + s;
    forall k | 0 <= k < |s| ensures s[k] != x {
      assert r[0] == x && s[k] == r[k + 1];
    }
    forall a, b | 0 <= a < b < |s| ensures s[a] != s[b] {
      assert s[a] == r[a + 1] && s[b] == r[b + 1];
    }
  }

  /** `argsort` lists every index exactly once, ordered by key, and equal keys by index. */
  lemma {:induction false} ArgSortProperties(keys: seq<int>, n: nat)
    requires n <= |keys|
    ensures var r := ArgSortUpTo(keys, n);
      && NoRepeats(r)
      && SortedBy(keys, r)
    decreases n
  {
    if n > 0 {
      ArgSortProperties(keys, n - 1);
      var prev := ArgSortUpTo(keys, n - 1);
      assert forall k :: 0 <= k < |prev| ==> prev[k] < n - 1 by {
        forall k | 0 <= k < |prev| ensures prev[k] < n - 1 { assert prev[k] in prev; }
      }
      InsertSorted(prev, n - 1, keys);
      InsertDistinct(prev, n - 1, keys);
    }
  }

  /** `zip(rows, cols)` with `rows = d.min(axis=1).argsort()` and `cols = d.argmin(axis=1)[rows]`:
      the rows by increasing smallest distance, each with the column of that distance. */
  function Candidates(d: seq<seq<nat>>): (cands: seq<(nat, nat)>)
    requires forall i :: 0 <= i < |d| ==> |d[i]| > 0
    ensures |cands| == |d| && InMatrix(cands, d)
  {
    var rows := ArgSort(RowMins(d));
    seq(|rows|, k requires 0 <= k < |rows| => (rows[k], ArgMin(d[rows[k]])))
  }

  /** Every candidate pairs a row with its nearest column, no row occurs twice, and the rows come
      in order of their smallest distance. */
  lemma CandidatesOrdered(d: seq<seq<nat>>)
    requires forall i :: 0 <= i < |d| ==> |d[i]| > 0
    ensures var cands := Candidates(d);
      && (forall k :: 0 <= k < |cands| ==> cands[k].1 == ArgMin(d[cands[k].0]))
      && (forall a, b :: 0 <= a < b < |cands| ==> cands[a].0 != cands[b].0)
      && (forall a, b :: 0 <= a < b < |cands| ==>
            d[cands[a].0][cands[a].1] <= d[cands[b].0][cands[b].1])
  {
    var keys := RowMins(d);
    var rows := ArgSort(keys);
    var cands := Candidates(d);
    ArgSortProperties(keys, |keys|);
    forall a, b | 0 <= a < b < |cands| ensures d[cands[a].0][cands[a].1] <= d[cands[b].0][cands[b].1] {
      assert Before(keys, rows[a], rows[b]);
    }
  }

  /** Every row occurs among the candidates, paired with its nearest column. */
  lemma CandidatesCover(d: seq<seq<nat>>)
    requires forall i :: 0 <= i < |d| ==> |d[i]| > 0
    ensures forall r: nat :: r < |d| ==> (r, ArgMin(d[r])) in Candidates(d)
  {
    var rows := ArgSort(RowMins(d));
    var cands := Candidates(d);
    forall r: nat | r < |d| ensures (r, ArgMin(d[r])) in cands {
      assert r in ArgSortUpTo(RowMins(d), |d|);
      var k :| 0 <= k < |rows| && rows[k] == r;
      assert cands[k] == (r, ArgMin(d[r]));
    }
  }

  /** The rows a list of (row, column) pairs uses, and the columns. */
  function RowsOf(pairs: seq<(nat, nat)>): set<nat>
  {
    set p | p in pairs :: p.0
  }

  function ColsOf(pairs: seq<(nat, nat)>): set<nat>
  {
    set p | p in pairs :: p.1
  }

  /** Every pair indexes an entry of the distance matrix. */
  predicate InMatrix(pairs: seq<(nat, nat)>, d: seq<seq<nat>>)
  {
    forall k :: 0 <= k < |pairs| ==> pairs[k].0 < |d| && pairs[k].1 < |d[pairs[k].0]|
  }

  /** The pairs that the greedy pass accepts from the candidates, in candidate order: a candidate
      is skipped when its row or its column is already used or its distance is too far. */
  function Greedy(cands: seq<(nat, nat)>, d: seq<seq<nat>>, maxDistance: int): seq<(nat, nat)>
    requires InMatrix(cands, d)
    decreases |cands|
  {
    if |cands| == 0 then []
    else
      var acc := Greedy(cands[..|cands| - 1], d, maxDistance);
      var (r, c) := cands[|cands| - 1];
      if r in RowsOf(acc) || c in ColsOf(acc) || TooFar(d[r][c], maxDistance) then acc
      else acc + [(r, c)]
  }

  /** The candidates before the last one still index the matrix. */
  lemma InMatrixInit(cands: seq<(nat, nat)>, d: seq<seq<nat>>)
    requires InMatrix(cands, d) && |cands| > 0
    ensures InMatrix(cands[..|cands| - 1], d)
  {
    var init := cands[..|cands| - 1];
    forall k | 0 <= k < |init| ensures init[k].0 < |d| && init[k].1 < |d[init[k].0]| {
      assert init[k] == cands[k];
    }
  }

  /** The accepted pairs are candidates, and each is within the distance bound. */
  lemma {:induction false} GreedySound(cands: seq<(nat, nat)>, d: seq<seq<nat>>, maxDistance: int)
    requires InMatrix(cands, d)
    ensures var acc := Greedy(cands, d, maxDistance);
      && (forall p :: p in acc ==> p in cands)
      && InMatrix(acc, d)
      && (forall p :: p in acc ==> !TooFar(d[p.0][p.1], maxDistance))
    decreases |cands|
  {
    if |cands| > 0 {
      var init := cands[..|cands| - 1];
      InMatrixInit(cands, d);
      GreedySound(init, d, maxDistance);
      var acc := Greedy(init, d, maxDistance);
      var (r, c) := cands[|cands| - 1];
      assert cands == init + [(r, c)];
      if !(r in RowsOf(acc) || c in ColsOf(acc) || TooFar(d[r][c], maxDistance)) {
        var acc2 := acc + [(r, c)];
        assert InMatrix(acc2, d) by {
          forall k | 0 <= k < |acc2| ensures acc2[k].0 < |d| && acc2[k].1 < |d[acc2[k].0]| {
            if k < |acc| { assert acc2[k] == acc[k]; }
          }
        }
      }
    }
  }

  /** No row and no column occurs twice. */
  predicate OneToOne(acc: seq<(nat, nat)>)
  {
    forall a, b :: 0 <= a < b < |acc| ==> acc[a].0 != acc[b].0 && acc[a].1 != acc[b].1
  }

  /** No row and no column is accepted twice. */
  lemma {:induction false} GreedyOneToOne(cands: seq<(nat, nat)>, d: seq<seq<nat>>, maxDistance: int)
    requires InMatrix(cands, d)
    ensures OneToOne(Greedy(cands, d, maxDistance))
    decreases |cands|
  {
    if |cands| > 0 {
      var init := cands[..|cands| - 1];
      InMatrixInit(cands, d);
      GreedyOneToOne(init, d, maxDistance);
      var acc := Greedy(init, d, maxDistance);
      var (r, c) := cands[|cands| - 1];
      if !(r in RowsOf(acc) || c in ColsOf(acc) || TooFar(d[r][c], maxDistance)) {
        var acc2 := acc + [(r, c)];
        assert Greedy(cands, d, maxDistance) == acc2;
        forall a, b | 0 <= a < b < |acc2| ensures acc2[a].0 != acc2[b].0 && acc2[a].1 != acc2[b].1 {
          if b == |acc| {
            assert acc2[a] == acc[a] && acc[a] in acc;
            assert acc[a].0 in RowsOf(acc) && acc[a].1 in ColsOf(acc);
          } else {
            assert acc2[a] == acc[a] && acc2[b] == acc[b];
          }
        }
      }
    }
  }

  /** A candidate is left out only when its row or its column was already taken, or it is too
      far. */
  lemma {:induction false} GreedyMaximal(cands: seq<(nat, nat)>, d: seq<seq<nat>>, maxDistance: int)
    requires InMatrix(cands, d)
    ensures var acc := Greedy(cands, d, maxDistance);
      forall p :: p in cands ==>
        p in acc || p.0 in RowsOf(acc) || p.1 in ColsOf(acc) || TooFar(d[p.0][p.1], maxDistance)
    decreases |cands|
  {
    if |cands| > 0 {
      var init := cands[..|cands| - 1];
      InMatrixInit(cands, d);
      GreedyMaximal(init, d, maxDistance);
      var acc := Greedy(init, d, maxDistance);
      var (r, c) := cands[|cands| - 1];
      assert cands == init + [(r, c)];
      if !(r in RowsOf(acc) || c in ColsOf(acc) || TooFar(d[r][c], maxDistance)) {
        var acc2 := acc + [(r, c)];
        assert RowsOf(acc) <= RowsOf(acc2) && ColsOf(acc) <= ColsOf(acc2);
      }
    }
  }

  /** The pairs the matching loop of `update` accepts for the distance matrix `d`. */
  function Matching(d: seq<seq<nat>>, maxDistance: int): seq<(nat, nat)>
    requires forall i :: 0 <= i < |d| ==> |d[i]| > 0
  {
    Greedy(Candidates(d), d, maxDistance)
  }

  /** The matching rules. No row and no column is matched twice; a row is matched only to its
      nearest column (the first one on a tie), and only within the distance bound; and a row is left
      unmatched only when its nearest column went to another row or is too far. */
  lemma MatchingRules(d: seq<seq<nat>>, maxDistance: int)
    requires forall i :: 0 <= i < |d| ==> |d[i]| > 0
    ensures OneToOne(Matching(d, maxDistance))
    ensures forall p :: p in Matching(d, maxDistance) ==>
              && p.0 < |d| && p.1 < |d[p.0]|
              && p.1 == ArgMin(d[p.0])
              && !TooFar(d[p.0][p.1], maxDistance)
    ensures forall r: nat :: r < |d| && r !in RowsOf(Matching(d, maxDistance)) ==>
              ArgMin(d[r]) in ColsOf(Matching(d, maxDistance)) || TooFar(d[r][ArgMin(d[r])], maxDistance)
  {
    var cands := Candidates(d);
    var acc := Matching(d, maxDistance);
    GreedySound(cands, d, maxDistance);
    GreedyOneToOne(cands, d, maxDistance);
    GreedyMaximal(cands, d, maxDistance);
    CandidatesOrdered(d);
    CandidatesCover(d);
    forall p | p in acc ensures p.1 == ArgMin(d[p.0]) {
      var k :| 0 <= k < |cands| && cands[k] == p;
    }
    forall r: nat | r < |d| && r !in RowsOf(acc)
      ensures ArgMin(d[r]) in ColsOf(acc) || TooFar(d[r][ArgMin(d[r])], maxDistance)
    {
      var p := (r, ArgMin(d[r]));
      assert p in cands;
      assert p !in acc;
    }
  }

  /** The members of [0, n) outside `used`, in increasing order: the model's own fixed order for
      iterating `set(range(n)).difference(used)`. CPython visits a set in hash-slot order, which for
      a freshly built difference such as {7, 8} (an 8-slot table, where 8 lands in slot 0) is not
      increasing. */
  function Unused(n: nat, used: set<nat>): (u: seq<nat>)
    ensures forall k :: 0 <= k < |u| ==> u[k] < n
    decreases n
  {
    if n == 0 then [] else Unused(n - 1, used) + (if n - 1 in used then [] else [n - 1])
  }

  /** `Unused` lists exactly the members of [0, n) outside `used`, each once, in increasing order. */
  lemma {:induction false} UnusedProperties(n: nat, used: set<nat>)
    ensures var u := Unused(n, used);
      && (forall x: nat :: x in u <==> x < n && x !in used)
      && (forall a, b :: 0 <= a < b < |u| ==> u[a] < u[b])
    decreases n
  {
    if n > 0 {
      UnusedProperties(n - 1, used);
      var prev := Unused(n - 1, used);
      var u := Unused(n, used);
      assert u == prev + (if n - 1 in used then [] else [n - 1]);
      forall x: nat ensures x in u <==> x < n && x !in used {
        assert x in u <==> x in prev || (n - 1 !in used && x == n - 1);
      }
    }
  }
}
