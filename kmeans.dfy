/**
 * The bookkeeping of k-means clustering: which centroid each row is assigned to, the
 * members of each centroid, the distances recorded for each row, the nearest-centroid
 * rule, and the update of nominal centroid features to the most common member value.
 * Distances are given as inputs; the numeric parts of the algorithm are not modelled.
 */
module KMeans {

  /** `Double.MAX_VALUE`, (2^53 - 1) * 2^971: the marker of a missing cell and the starting "closest" distance. */
  const MaxValue: real := 179769313486231570814527423731704356798070567525844996598917476803157260780028538760589558632766878171540458953514382464234321326889464182768467546703537516986049910576551282076245490090389328944075868508455133942304583236903222948165808559332123348274797826204144723168738177180919299881250404026184124858368.0

  /** `j` is the lowest index attaining the minimum of `ds`. */
  predicate IsFirstMin(ds: seq<real>, j: int)
  {
    && 0 <= j < |ds|
    && (forall l :: 0 <= l < |ds| ==> ds[j] <= ds[l])
    && (forall l :: 0 <= l < j ==> ds[j] < ds[l])
  }

  /** At most one index is the first minimum. */
  lemma FirstMinUnique(ds: seq<real>, i: int, j: int)
    requires IsFirstMin(ds, i) && IsFirstMin(ds, j)
    ensures i == j
  {
    assert ds[i] <= ds[j] && ds[j] <= ds[i];
  }

  /**
   * The nearest-centroid scan of `makeAssignments` over the distances `ds` from one row
   * to each centroid, starting from `MaxValue`: a centroid strictly closer than the best
   * one so far takes its place; -1 when no distance is below `MaxValue`.
   */
  function Closest(ds: seq<real>): (closest: int)
    ensures -1 <= closest < |ds|
  {
    if |ds| == 0 then -1
    else
      var before := Closest(ds[..|ds| - 1]);
      var best := if before == -1 then MaxValue else ds[before];
      if ds[|ds| - 1] < best then |ds| - 1 else before
  }

  /**
   * The scan finds the first minimum of the distances when some distance is below
   * `MaxValue`, and -1 exactly when none is.
   */
  lemma {:induction false} ClosestIsFirstMin(ds: seq<real>)
    ensures Closest(ds) == -1 <==> forall j :: 0 <= j < |ds| ==> ds[j] >= MaxValue
    ensures Closest(ds) != -1 ==> IsFirstMin(ds, Closest(ds)) && ds[Closest(ds)] < MaxValue
  {
    if |ds| > 0 {
      var prefix := ds[..|ds| - 1];
      ClosestIsFirstMin(prefix);
      assert forall j :: 0 <= j < |prefix| ==> prefix[j] == ds[j];
    }
  }

  /** `makeAssignments`' inner loop over the centroids, computing `Closest(ds)`. */
  method ClosestCentroid(ds: seq<real>) returns (closest: int)
    ensures closest == Closest(ds)
  {
    closest := -1;
    var closestDistance := MaxValue;
    var j := 0;
    while j < |ds|
      invariant 0 <= j <= |ds|
      invariant closest == Closest(ds[..j])
      invariant closestDistance == if closest == -1 then MaxValue else ds[closest]
    {
      assert ds[..j + 1][..j] == ds[..j];
      if ds[j] < closestDistance {
        closest := j;
        closestDistance := ds[j];
      }
      j := j + 1;
    }
    assert ds[..|ds|] == ds;
  }

  /** The rows below `n` whose nearest centroid is `c`. */
  ghost function NearestRows(dist: seq<seq<real>>, n: nat, c: int): set<nat>
    requires n <= |dist|
  {
    set r: nat | r < n && Closest(dist[r]) == c
  }

  /** The scan picks a centroid for every row of `dist`. */
  predicate Scannable(dist: seq<seq<real>>)
  {
    forall i :: 0 <= i < |dist| ==> Closest(dist[i]) != -1
  }

  /** Every row of `dist` holds the distances to `k` centroids. */
  predicate Widths(dist: seq<seq<real>>, k: nat)
  {
    forall i :: 0 <= i < |dist| ==> |dist[i]| == k
  }

  /** The assignments after the first `n` rows of `dist` are assigned to their nearest centroids. */
  function AssignedAfter(before: map<nat, nat>, dist: seq<seq<real>>, n: nat): map<nat, nat>
    requires n <= |dist| && Scannable(dist)
  {
    if n == 0 then before
    else AssignedAfter(before, dist, n - 1)[n - 1 := Closest(dist[n - 1])]
  }

  /** Each of the first `n` rows is assigned its nearest centroid; every other key keeps its value. */
  lemma {:induction false} AssignedAfterSpec(before: map<nat, nat>, dist: seq<seq<real>>, n: nat)
    requires n <= |dist| && Scannable(dist)
    ensures forall r :: 0 <= r < n ==> r in AssignedAfter(before, dist, n) && AssignedAfter(before, dist, n)[r] == Closest(dist[r])
    ensures forall r: nat :: r in AssignedAfter(before, dist, n) <==> r in before || r < n
    ensures forall r :: r in before && r >= n ==> AssignedAfter(before, dist, n)[r] == before[r]
  {
    if n > 0 {
      AssignedAfterSpec(before, dist, n - 1);
    }
  }

  /** The members after the first `n` rows of `dist` join their nearest centroids. */
  function MembersAfter(before: seq<set<nat>>, dist: seq<seq<real>>, n: nat): (m: seq<set<nat>>)
    requires n <= |dist| && Scannable(dist) && Widths(dist, |before|)
    ensures |m| == |before|
  {
    if n == 0 then before
    else
      var m := MembersAfter(before, dist, n - 1);
      var c := Closest(dist[n - 1]);
      m[c := m[c] + {n - 1}]
  }

  /** Centroid `c` gains exactly the rows among the first `n` whose nearest centroid it is. */
  lemma {:induction false} MembersAfterSpec(before: seq<set<nat>>, dist: seq<seq<real>>, n: nat)
    requires n <= |dist| && Scannable(dist) && Widths(dist, |before|)
    ensures forall c :: 0 <= c < |before| ==> MembersAfter(before, dist, n)[c] == before[c] + NearestRows(dist, n, c)
  {
    if n > 0 {
      MembersAfterSpec(before, dist, n - 1);
      forall c | 0 <= c < |before|
        ensures MembersAfter(before, dist, n)[c] == before[c] + NearestRows(dist, n, c)
      {
        assert NearestRows(dist, n, c) == NearestRows(dist, n - 1, c) + (if Closest(dist[n - 1]) == c then {n - 1} else {});
      }
    }
  }

  /** The distance records after the distances of the first `n` rows are appended. */
  function DistancesAfter(before: seq<seq<real>>, dist: seq<seq<real>>, n: nat): (d: seq<seq<real>>)
    requires n <= |dist| <= |before|
    ensures |d| == |before|
  {
    if n == 0 then before
    else DistancesAfter(before, dist, n - 1)[n - 1 := before[n - 1] + dist[n - 1]]
  }

  /** Each of the first `n` records has its row's distances appended; the others are unchanged. */
  lemma {:induction false} DistancesAfterSpec(before: seq<seq<real>>, dist: seq<seq<real>>, n: nat)
    requires n <= |dist| <= |before|
    ensures forall r :: 0 <= r < n ==> DistancesAfter(before, dist, n)[r] == before[r] + dist[r]
    ensures forall r :: n <= r < |before| ==> DistancesAfter(before, dist, n)[r] == before[r]
  {
    if n > 0 {
      DistancesAfterSpec(before, dist, n - 1);
    }
  }

  /** Whether assigning the first `n` rows to their nearest centroids changes any of them. */
  function Changed(before: map<nat, nat>, dist: seq<seq<real>>, n: nat): bool
    requires n <= |dist| && Scannable(dist)
  {
    n > 0 && (Changed(before, dist, n - 1) || n - 1 !in before || before[n - 1] != Closest(dist[n - 1]))
  }

  /** A change is reported exactly when some row among the first `n` gets a different centroid. */
  lemma {:induction false} ChangedSpec(before: map<nat, nat>, dist: seq<seq<real>>, n: nat)
    requires n <= |dist| && Scannable(dist)
    ensures Changed(before, dist, n) <==> exists r :: 0 <= r < n && (r !in before || before[r] != Closest(dist[r]))
  {
    if n > 0 {
      ChangedSpec(before, dist, n - 1);
    }
  }

  /** The number of rows among `s` whose feature `f` holds `x`. */
  function Occurrences(data: seq<seq<real>>, f: nat, s: set<nat>, x: real): nat
    requires forall n :: n in s ==> n < |data| && f < |data[n]|
  {
    |set n | n in s && data[n][f] == x|
  }

  /** Adding one row to the counted set adds one occurrence of that row's value. */
  lemma OccurrencesAdd(data: seq<seq<real>>, f: nat, s: set<nat>, n: nat, x: real)
    requires forall m :: m in s ==> m < |data| && f < |data[m]|
    requires n < |data| && f < |data[n]| && n !in s
    ensures Occurrences(data, f, s + {n}, x) == Occurrences(data, f, s, x) + (if data[n][f] == x then 1 else 0)
  {
    var before := set m | m in s && data[m][f] == x;
    var after := set m | m in s + {n} && data[m][f] == x;
    if data[n][f] == x {
      assert after == before + {n};
    } else {
      assert after == before;
    }
  }

  /** A value that no row of `s` holds does not occur among them. */
  lemma NoOccurrences(data: seq<seq<real>>, f: nat, s: set<nat>, x: real)
    requires forall m :: m in s ==> m < |data| && f < |data[m]|
    requires forall m :: m in s ==> data[m][f] != x
    ensures Occurrences(data, f, s, x) == 0
  {
    assert (set m | m in s && data[m][f] == x) == {};
  }

  /** The number of rows among `s` whose feature `f` is known (not the `MaxValue` marker). */
  ghost function Known(data: seq<seq<real>>, f: nat, s: set<nat>): nat
    requires forall n :: n in s ==> n < |data| && f < |data[n]|
  {
    |set n | n in s && data[n][f] != MaxValue|
  }

  /** Adding one row adds one known value exactly when that row's feature is known. */
  lemma KnownAdd(data: seq<seq<real>>, f: nat, s: set<nat>, n: nat)
    requires forall m :: m in s ==> m < |data| && f < |data[m]|
    requires n < |data| && f < |data[n]| && n !in s
    ensures Known(data, f, s + {n}) == Known(data, f, s) + (if data[n][f] != MaxValue then 1 else 0)
  {
    var before := set m | m in s && data[m][f] != MaxValue;
    var after := set m | m in s + {n} && data[m][f] != MaxValue;
    if data[n][f] != MaxValue {
      assert after == before + {n};
    } else {
      assert after == before;
    }
  }

  /** No known value exactly when every row of `s` has the marker in feature `f`. */
  lemma KnownZero(data: seq<seq<real>>, f: nat, s: set<nat>)
    requires forall m :: m in s ==> m < |data| && f < |data[m]|
    ensures Known(data, f, s) == 0 <==> forall m :: m in s ==> data[m][f] == MaxValue
  {
    var known := set m | m in s && data[m][f] != MaxValue;
    if m :| m in s && data[m][f] != MaxValue {
      assert m in known;
    }
  }

  /** `counts` holds, for every known value of feature `f` among the rows of `s`, how often it occurs. */
  ghost predicate Tallies(data: seq<seq<real>>, f: nat, s: set<nat>, counts: map<real, nat>)
    requires forall n :: n in s ==> n < |data| && f < |data[n]|
  {
    && (forall x :: x in counts <==> x != MaxValue && Occurrences(data, f, s, x) > 0)
    && (forall x :: x in counts ==> counts[x] == Occurrences(data, f, s, x))
  }

  /** Counting row `n` once more keeps the tally exact. */
  lemma TallyStep(data: seq<seq<real>>, f: nat, s: set<nat>, n: nat, before: map<real, nat>, after: map<real, nat>)
    requires forall m :: m in s ==> m < |data| && f < |data[m]|
    requires n < |data| && f < |data[n]| && n !in s
    requires Tallies(data, f, s, before)
    requires after == if data[n][f] == MaxValue then before
                      else if data[n][f] in before then before[data[n][f] := before[data[n][f]] + 1]
                      else before[data[n][f] := 1]
    ensures Tallies(data, f, s + {n}, after)
  {
    forall x {
      OccurrencesAdd(data, f, s, n, x);
    }
  }

  /** The value of a row of `s` occurs among the rows of `s`. */
  lemma OccurrencesPositive(data: seq<seq<real>>, f: nat, s: set<nat>, n: nat)
    requires forall m :: m in s ==> m < |data| && f < |data[m]|
    requires n in s
    ensures Occurrences(data, f, s, data[n][f]) > 0
  {
    var found := set m | m in s && data[m][f] == data[n][f];
    assert {n} <= found;
    assert |{n}| == 1;
  }

  /**
   * The nominal centroid feature: the most frequent known value of feature `f` among the
   * rows of `s`, ties going to the smaller value; -1.0 when no row of `s` has a known value.
   */
  ghost predicate IsNominalMode(data: seq<seq<real>>, f: nat, s: set<nat>, mode: real)
    requires forall n :: n in s ==> n < |data| && f < |data[n]|
  {
    if forall n :: n in s ==> data[n][f] == MaxValue then mode == -1.0
    else
      && mode != MaxValue
      && Occurrences(data, f, s, mode) > 0
      && forall x :: x != MaxValue ==>
           || Occurrences(data, f, s, x) < Occurrences(data, f, s, mode)
           || (Occurrences(data, f, s, x) == Occurrences(data, f, s, mode) && mode <= x)
  }

  /** The nominal centroid feature is determined by the members alone. */
  lemma NominalModeUnique(data: seq<seq<real>>, f: nat, s: set<nat>, m1: real, m2: real)
    requires forall n :: n in s ==> n < |data| && f < |data[n]|
    requires IsNominalMode(data, f, s, m1) && IsNominalMode(data, f, s, m2)
    ensures m1 == m2
  {
  }

  /** `k` clusters without members. */
  function NoMembers(k: nat): (m: seq<set<nat>>)
    ensures |m| == k && forall c :: 0 <= c < k ==> m[c] == {}
  {
    seq(k, _ => {})
  }

  /** `n` empty distance records. */
  function NoDistances(n: nat): (d: seq<seq<real>>)
    ensures |d| == n && forall r :: 0 <= r < n ==> d[r] == []
  {
    seq(n, _ => [])
  }

  /**
   * `mode` is the key of `counts` with the greatest count, the smaller key winning on equal
   * counts; -1.0 when `counts` is empty.
   */
  predicate IsMostCommon(counts: map<real, nat>, mode: real)
  {
    if counts == map[] then mode == -1.0
    else
      && mode in counts
      && forall x :: x in counts ==> counts[x] < counts[mode] || (counts[x] == counts[mode] && mode <= x)
  }

  /** The selection loop of the nominal branch, over the entries of `counts` in any order. */
  method MostCommon(counts: map<real, nat>) returns (mode: real)
    ensures IsMostCommon(counts, mode)
  {
    var greatestCount: int := -1;
    mode := -1.0;
    var entries := counts.Keys;
    ghost var seen: set<real> := {};
    while entries != {}
      invariant entries <= counts.Keys && seen == counts.Keys - entries
      invariant greatestCount == -1 ==> mode == -1.0 && seen == {}
      invariant greatestCount != -1 ==> mode in counts && counts[mode] == greatestCount
      invariant forall x :: x in seen ==>
        counts[x] < greatestCount || (counts[x] == greatestCount && mode <= x)
      decreases entries
    {
      // The guard makes `entries` non-empty, but Dafny picks an element of a set of reals
      // only once the case "no element" has been refuted explicitly.
      if forall y :: y !in entries {
        assert false;
      }
      var key :| key in entries;
      if counts[key] > greatestCount || (counts[key] == greatestCount && key < mode) {
        greatestCount := counts[key];
        mode := key;
      }
      entries := entries - {key};
      seen := seen + {key};
    }
  }

  /** The clusters of one k-means run over the rows of `data`. */
  class CentroidMap {
    const k: nat
    const data: seq<seq<real>>
    /** Whether each feature is nominal (its column declares values). */
    const nominals: seq<bool>
    var iteration: int
    var centroids: seq<seq<real>>
    /** Row index to centroid index. */
    var assignments: map<nat, nat>
    /** The rows each centroid holds. */
    var members: seq<set<nat>>
    /** The distances recorded for each row to the centroids, in centroid order. */
    var distances: seq<seq<real>>

    ghost predicate Valid()
      reads this
    {
      && (forall r :: 0 <= r < |data| ==> |data[r]| == |nominals|)
      && |centroids| == k
      && (forall c :: 0 <= c < k ==> |centroids[c]| == |nominals|)
      && |members| == k
      && (forall c, n :: 0 <= c < k && n in members[c] ==> n < |data|)
      && |distances| == |data|
      && iteration >= 1
    }

    /** The rows of `s` are rows of `data` that have feature `f`. */
    predicate RowsOf(s: set<nat>, f: nat)
      reads this
    {
      forall n :: n in s ==> n < |data| && f < |data[n]|
    }

    /**
     * A fresh map with `k` empty clusters; centroid `i` starts as a copy of row
     * `picks[i]` (the randomly drawn row index).
     */
    constructor (k: nat, data: seq<seq<real>>, nominals: seq<bool>, picks: seq<nat>)
      requires forall r :: 0 <= r < |data| ==> |data[r]| == |nominals|
      requires |picks| == k && forall i :: 0 <= i < k ==> picks[i] < |data|
      ensures Valid()
      ensures this.k == k && this.data == data && this.nominals == nominals
      ensures iteration == 1 && assignments == map[]
      ensures members == NoMembers(k) && distances == NoDistances(|data|)
      ensures |centroids| == k && forall i :: 0 <= i < k ==> centroids[i] == data[picks[i]]
    {
      this.k := k;
      this.data := data;
      this.nominals := nominals;
      iteration := 1;
      assignments := map[];
      centroids := seq(k, i requires 0 <= i < k => data[picks[i]]);
      members := NoMembers(k);
      distances := NoDistances(|data|);
    }

    /**
     * `assign`: row `node` now belongs to `centroid`; reports whether that differs from
     * its previous assignment. The row is not taken out of its previous centroid's members.
     */
    method Assign(node: nat, centroid: nat) returns (change: bool)
      requires Valid() && centroid < k && node < |data|
      modifies this
      ensures Valid()
      ensures change == (node !in old(assignments) || old(assignments)[node] != centroid)
      ensures assignments == old(assignments)[node := centroid]
      ensures members == old(members)[centroid := old(members)[centroid] + {node}]
      ensures distances == old(distances) && centroids == old(centroids) && iteration == old(iteration)
    {
      change := false;
      if node !in assignments || assignments[node] != centroid {
        assignments := assignments[node := centroid];
        change := true;
      }
      members := members[centroid := members[centroid] + {node}];
    }

    /** `clear`: every cluster loses its members and every row its recorded distances. */
    method Clear()
      requires Valid()
      modifies this
      ensures Valid()
      ensures members == NoMembers(k) && distances == NoDistances(|data|)
      ensures assignments == old(assignments) && centroids == old(centroids) && iteration == old(iteration)
    {
      members := NoMembers(k);
      distances := NoDistances(|data|);
    }

    /**
     * `makeAssignments`, with `dist[i][j]` the distance from row `i` to centroid `j`:
     * clears the clusters unless this is the first iteration, records every row's
     * distances, assigns every row to its nearest centroid, and reports whether any
     * row's assignment changed. Every row must have a distance below `MaxValue`
     * (otherwise `assign` would be called with centroid -1 and fail).
     */
    method MakeAssignments(dist: seq<seq<real>>) returns (change: bool)
      requires Valid()
      requires |dist| == |data| && Widths(dist, k) && Scannable(dist)
      modifies this
      ensures Valid()
      ensures centroids == old(centroids) && iteration == old(iteration)
      ensures assignments == AssignedAfter(old(assignments), dist, |data|)
      ensures members == MembersAfter(if old(iteration) > 1 then NoMembers(k) else old(members), dist, |data|)
      ensures distances == DistancesAfter(if old(iteration) > 1 then NoDistances(|data|) else old(distances), dist, |data|)
      ensures change == Changed(old(assignments), dist, |data|)
    {
      if iteration > 1 {
        Clear();
      }
      change := AssignRows(dist);
    }

    /** The row loop of `makeAssignments`, without the clearing. */
    method AssignRows(dist: seq<seq<real>>) returns (change: bool)
      requires Valid()
      requires |dist| == |data| && Widths(dist, k) && Scannable(dist)
      modifies this
      ensures Valid()
      ensures centroids == old(centroids) && iteration == old(iteration)
      ensures assignments == AssignedAfter(old(assignments), dist, |data|)
      ensures members == MembersAfter(old(members), dist, |data|)
      ensures distances == DistancesAfter(old(distances), dist, |data|)
      ensures change == Changed(old(assignments), dist, |data|)
    {
      ghost var assigned0, members0, distances0 := assignments, members, distances;
      change := false;
      var i := 0;
      while i < |data|
        invariant Valid()
        invariant 0 <= i <= |data|
        invariant centroids == old(centroids) && iteration == old(iteration)
        invariant assignments == AssignedAfter(assigned0, dist, i)
        invariant members == MembersAfter(members0, dist, i)
        invariant distances == DistancesAfter(distances0, dist, i)
        invariant change == Changed(assigned0, dist, i)
      {
        AssignedAfterSpec(assigned0, dist, i);
        DistancesAfterSpec(distances0, dist, i);
        var result := AssignRow(i, dist[i]);
        change := change || result;
        i := i + 1;
      }
    }

    /**
     * One pass of the row loop of `makeAssignments`: records the distances `ds` from row
     * `i` to every centroid and assigns the row to its nearest centroid.
     */
    method AssignRow(i: nat, ds: seq<real>) returns (result: bool)
      requires Valid() && i < |data| && |ds| == k
      requires Closest(ds) != -1
      modifies this
      ensures Valid()
      ensures assignments == old(assignments)[i := Closest(ds)]
      ensures result == (i !in old(assignments) || old(assignments)[i] != Closest(ds))
      ensures members == old(members)[Closest(ds) := old(members)[Closest(ds)] + {i}]
      ensures distances == old(distances)[i := old(distances)[i] + ds]
      ensures centroids == old(centroids) && iteration == old(iteration)
    {
      var closest := ClosestCentroid(ds);
      distances := distances[i := distances[i] + ds];
      result := Assign(i, closest);
    }

    /**
     * The nominal branch of `calcNewCentroids` for one centroid and feature: counts the
     * known values of feature `f` among the rows of `s`, then keeps the entry with the
     * greatest count, preferring the smaller value on equal counts.
     */
    method NominalMode(f: nat, s: set<nat>) returns (mode: real)
      requires RowsOf(s, f)
      ensures IsNominalMode(data, f, s, mode)
    {
      var counts := CountValues(f, s);
      mode := MostCommon(counts);
      if !forall n :: n in s ==> data[n][f] == MaxValue {
        var n :| n in s && data[n][f] != MaxValue;
        OccurrencesPositive(data, f, s, n);
      } else {
        forall x | x != MaxValue
          ensures Occurrences(data, f, s, x) == 0
        {
          NoOccurrences(data, f, s, x);
        }
        assert counts.Keys == {};
      }
    }

    /** The counting loop of the nominal branch: how often each known value of feature `f` occurs in `s`. */
    method CountValues(f: nat, s: set<nat>) returns (counts: map<real, nat>)
      requires RowsOf(s, f)
      ensures Tallies(data, f, s, counts)
    {
      counts := map[];
      ghost var done: set<nat> := {};
      var rest := s;
      while rest != {}
        invariant rest <= s && done == s - rest
        invariant Tallies(data, f, done, counts)
        decreases rest
      {
        var member :| member in rest;
        var value := data[member][f];
        ghost var before := counts;
        if value != MaxValue {
          if value in counts {
            counts := counts[value := counts[value] + 1];
          } else {
            counts := counts[value := 1];
          }
        }
        TallyStep(data, f, done, member, before, counts);
        rest := rest - {member};
        done := done + {member};
      }
      assert done == s;
    }

    /**
     * The counting loop of the numeric branch: how many rows of `s` have a known value in
     * feature `f`.
     */
    method CountKnown(f: nat, s: set<nat>) returns (count: nat)
      requires RowsOf(s, f)
      ensures count == Known(data, f, s)
    {
      count := 0;
      ghost var done: set<nat> := {};
      var rest := s;
      while rest != {}
        invariant rest <= s && done == s - rest
        invariant count == Known(data, f, done)
        decreases rest
      {
        var member :| member in rest;
        KnownAdd(data, f, done, member);
        if data[member][f] != MaxValue {
          count := count + 1;
        }
        rest := rest - {member};
        done := done + {member};
      }
      assert done == s;
    }

    /**
     * The new value of feature `f` of centroid `c`. A nominal feature becomes the members'
     * nominal mode. A numeric feature becomes `mean`, the mean of the members' known values,
     * or `MaxValue` when no member has a known value.
     */
    ghost predicate UpdatedFeature(c: nat, f: nat, mean: real, now: real)
      reads this
      requires Valid() && c < k && f < |nominals|
    {
      if nominals[f] then IsNominalMode(data, f, members[c], now)
      else if forall n :: n in members[c] ==> data[n][f] == MaxValue then now == MaxValue
      else now == mean
    }

    /** One step of the feature loop: the new value of feature `f` of centroid `c`. */
    method NewFeature(c: nat, f: nat, mean: real) returns (value: real)
      requires Valid() && c < k && f < |nominals|
      ensures UpdatedFeature(c, f, mean, value)
    {
      if nominals[f] {
        value := NominalMode(f, members[c]);
      } else {
        var count := CountKnown(f, members[c]);
        KnownZero(data, f, members[c]);
        value := if count > 0 then mean else MaxValue;
      }
    }

    /**
     * `calcNewCentroids`: advances the iteration by one and recomputes every feature of every
     * centroid from that centroid's members. `means[c][f]` is the floating-point mean that the
     * numeric branch computes for centroid `c` and feature `f`; entries for nominal features
     * are not used.
     */
    method CalcNewCentroids(means: seq<seq<real>>)
      requires Valid()
      requires |means| == k && forall c :: 0 <= c < k ==> |means[c]| == |nominals|
      modifies this
      ensures Valid()
      ensures iteration == old(iteration) + 1
      ensures assignments == old(assignments) && members == old(members) && distances == old(distances)
      ensures forall c, f :: 0 <= c < k && 0 <= f < |nominals| ==>
        UpdatedFeature(c, f, means[c][f], centroids[c][f])
    {
      iteration := iteration + 1;
      var centroid := 0;
      while centroid < k
        invariant Valid()
        invariant 0 <= centroid <= k
        invariant iteration == old(iteration) + 1
        invariant assignments == old(assignments) && members == old(members) && distances == old(distances)
        invariant forall c, f :: 0 <= c < centroid && 0 <= f < |nominals| ==>
          UpdatedFeature(c, f, means[c][f], centroids[c][f])
      {
        var feature := 0;
        while feature < |nominals|
          invariant Valid()
          invariant 0 <= feature <= |nominals|
          invariant iteration == old(iteration) + 1
          invariant assignments == old(assignments) && members == old(members) && distances == old(distances)
          invariant forall c, f :: 0 <= c < centroid && 0 <= f < |nominals| ==>
            UpdatedFeature(c, f, means[c][f], centroids[c][f])
          invariant forall f :: 0 <= f < feature ==>
            UpdatedFeature(centroid, f, means[centroid][f], centroids[centroid][f])
        {
          var value := NewFeature(centroid, feature, means[centroid][feature]);
          centroids := centroids[centroid := centroids[centroid][feature := value]];
          feature := feature + 1;
        }
        centroid := centroid + 1;
      }
    }
  }
}
