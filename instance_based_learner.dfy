/**
 * The neighbour bookkeeping of the k-nearest-neighbour learner: the directory that keeps
 * at most `size` candidate rows by evicting a farthest one, the rows the learner ignores,
 * and the candidate filtering of `predict`. Distances and distance scores are inputs;
 * the distance function and the vote are not modelled.
 */
module InstanceBasedLearner {

  /** How many entries a directory of capacity `size` can keep (none when `size` is not positive). */
  function Capacity(size: int): nat
  {
    if size < 0 then 0 else size
  }

  /** `f` is an entry of `m` whose value is at least every other entry's value. */
  ghost predicate IsFarthest(m: map<nat, real>, f: nat)
  {
    f in m && forall g :: g in m ==> m[g] <= m[f]
  }

  /**
   * The effect of `add(key, value)` on a directory of capacity `size` holding `before`:
   * the pair is put (overwriting an old value of `key`); if the directory then holds more
   * than `size` entries, exactly one farthest entry, possibly `key` itself, is removed.
   */
  ghost predicate Added(size: int, before: map<nat, real>, key: nat, value: real, after: map<nat, real>)
  {
    var put := before[key := value];
    if |put| > size then exists f: nat :: IsFarthest(put, f) && after == put - {f}
    else after == put
  }

  /** Removing a present key removes one entry. */
  lemma RemoveOne(m: map<nat, real>, f: nat)
    requires f in m
    ensures |m - {f}| == |m| - 1
  {
    assert (m - {f}).Keys == m.Keys - {f};
    assert m.Keys == (m - {f}).Keys + {f};
  }

  /** A directory within its capacity stays within it. */
  lemma AddedWithinCapacity(size: int, before: map<nat, real>, key: nat, value: real, after: map<nat, real>)
    requires Added(size, before, key, value, after)
    requires |before| <= Capacity(size)
    ensures |after| <= Capacity(size)
  {
    var put := before[key := value];
    if |put| > size {
      var f: nat :| IsFarthest(put, f) && after == put - {f};
      RemoveOne(put, f);
    }
  }

  /**
   * Re-adding a present key to a directory within its capacity overwrites the value and
   * evicts nothing; the entry count grows only for a new key, and by at most one.
   */
  lemma AddedSize(size: int, before: map<nat, real>, key: nat, value: real, after: map<nat, real>)
    requires Added(size, before, key, value, after)
    ensures |after| <= |before| + 1
    ensures key in before && |before| <= size ==> after == before[key := value] && |after| == |before|
    ensures |after| == |before| + 1 ==> key !in before && after == before[key := value]
  {
    var put := before[key := value];
    if |put| > size {
      var f: nat :| IsFarthest(put, f) && after == put - {f};
      RemoveOne(put, f);
    }
  }

  /** Every entry left after an add holds the value that was put for it. */
  lemma AddedKeepsValues(size: int, before: map<nat, real>, key: nat, value: real, after: map<nat, real>)
    requires Added(size, before, key, value, after)
    ensures key in after ==> after[key] == value
    ensures forall g :: g in after && g != key ==> g in before && after[g] == before[g]
    ensures forall g :: g in before && g != key && g !in after ==>
      forall h :: h in after ==> after[h] <= before[g]
  {
    var put := before[key := value];
    if |put| > size {
      var f: nat :| IsFarthest(put, f) && after == put - {f};
    }
  }

  /** The key just added can itself be the one evicted. */
  lemma AddedMayEvictNewKey(after: map<nat, real>)
    requires Added(1, map[0 := 1.0], 1, 2.0, after)
    ensures after == map[0 := 1.0]
  {
    var put := map[0 := 1.0][1 := 2.0];
    assert put.Keys == {0, 1};
    assert |put| == 2;
    var f: nat :| IsFarthest(put, f) && after == put - {f};
    assert put[1] <= put[f];
    assert f == 1;
  }

  /** A map of row index to distance that keeps at most `size` entries, the farthest going first. */
  class Directory {
    const size: int
    var entries: map<nat, real>

    constructor (size: int)
      ensures this.size == size && entries == map[]
    {
      this.size := size;
      entries := map[];
    }

    /**
     * `add`: puts the pair, and when that makes the directory exceed its size, scans the
     * entries (in whatever order the map yields them) for one with the greatest value,
     * keeping the first seen on equal values, and removes it.
     */
    method Add(key: nat, value: real)
      modifies this
      ensures Added(size, old(entries), key, value, entries)
    {
      entries := entries[key := value];
      if |entries| > size {
        var farthest: int := -1;
        var rest := entries.Keys;
        ghost var seen: set<nat> := {};
        while rest != {}
          invariant rest <= entries.Keys && seen == entries.Keys - rest
          invariant farthest == -1 <==> seen == {}
          invariant farthest != -1 ==> farthest in seen && forall g :: g in seen ==> entries[g] <= entries[farthest]
          decreases rest
        {
          var e :| e in rest;
          if farthest == -1 {
            farthest := e;
          } else if entries[farthest] < entries[e] {
            farthest := e;
          }
          rest := rest - {e};
          seen := seen + {e};
        }
        assert key in seen;
        assert IsFarthest(entries, farthest);
        entries := entries - {farthest};
      }
    }

    /** `nn`: the keys of the directory, each exactly once, in whatever order the map yields them. */
    method Nn() returns (nearest: seq<nat>)
      ensures forall x :: x in nearest <==> x in entries
      ensures forall p, q :: 0 <= p < q < |nearest| ==> nearest[p] != nearest[q]
      ensures |nearest| == |entries|
    {
      nearest := [];
      var rest := entries.Keys;
      while rest != {}
        invariant rest <= entries.Keys
        invariant forall x :: x in nearest <==> x in entries && x !in rest
        invariant forall p, q :: 0 <= p < q < |nearest| ==> nearest[p] != nearest[q]
        invariant |nearest| + |rest| == |entries|
        decreases rest
      {
        var key :| key in rest;
        nearest := nearest + [key];
        rest := rest - {key};
      }
    }
  }

  /** The rows below `n` that `predict` offers to the directory: those not ignored. */
  function Candidates(n: nat, ignore: set<nat>): set<nat>
  {
    if n == 0 then {} else Candidates(n - 1, ignore) + (if n - 1 in ignore then {} else {n - 1})
  }

  /** The candidates are exactly the rows below `n` that are not ignored. */
  lemma {:induction false} CandidatesSpec(n: nat, ignore: set<nat>)
    ensures forall x: nat :: x in Candidates(n, ignore) <==> x < n && x !in ignore
  {
    if n > 0 {
      CandidatesSpec(n - 1, ignore);
    }
  }

  /** `rows` are exactly the rows below `n` that are not ignored. */
  ghost predicate OfferedBelow(rows: set<nat>, n: nat, ignore: set<nat>)
  {
    forall x: nat :: x in rows <==> x < n && x !in ignore
  }

  /** The rows of `scores` whose distance score exceeds 1.0. */
  function Outliers(scores: seq<real>): set<nat>
  {
    set i: nat | i < |scores| && scores[i] > 1.0
  }

  /** Every entry of the directory carries its row's distance. */
  ghost predicate Agrees(entries: map<nat, real>, dist: seq<real>)
  {
    forall g :: g in entries ==> g < |dist| && entries[g] == dist[g]
  }

  /**
   * A directory of capacity `size` that was offered rows, of which it kept `kept` and
   * evicted `dropped`: no kept row is farther than a dropped one, and once anything was
   * dropped the directory is full.
   */
  ghost predicate KeepsNearest(size: int, dist: seq<real>, kept: set<nat>, dropped: set<nat>)
  {
    && (forall g :: g in kept ==> g < |dist|)
    && (forall h :: h in dropped ==> h < |dist|)
    && kept !! dropped
    && (forall g, h :: g in kept && h in dropped ==> dist[g] <= dist[h])
    && |kept| <= Capacity(size)
    && (dropped != {} ==> |kept| == Capacity(size))
  }

  /** Offering a new row keeps the nearest rows and accounts for the one evicted, if any. */
  lemma KeepsNearestStep(size: int, dist: seq<real>, entries: map<nat, real>, dropped: set<nat>, i: nat, after: map<nat, real>)
    returns (dropped': set<nat>)
    requires Agrees(entries, dist) && KeepsNearest(size, dist, entries.Keys, dropped)
    requires i < |dist| && i !in entries && i !in dropped
    requires Added(size, entries, i, dist[i], after)
    ensures Agrees(after, dist) && KeepsNearest(size, dist, after.Keys, dropped')
    ensures after.Keys + dropped' == entries.Keys + dropped + {i}
  {
    if |entries[i := dist[i]]| > size {
      var f: nat :| IsFarthest(entries[i := dist[i]], f) && after == entries[i := dist[i]] - {f};
      dropped' := EvictStep(size, dist, entries, dropped, i, f, after);
    } else {
      KeepStep(size, dist, entries, dropped, i, after);
      dropped' := dropped;
    }
  }

  /** The eviction case of `KeepsNearestStep`: the farthest row `f` joins the dropped rows. */
  lemma EvictStep(size: int, dist: seq<real>, entries: map<nat, real>, dropped: set<nat>, i: nat, f: nat, after: map<nat, real>)
    returns (dropped': set<nat>)
    requires Agrees(entries, dist) && KeepsNearest(size, dist, entries.Keys, dropped)
    requires i < |dist| && i !in entries && i !in dropped
    requires |entries[i := dist[i]]| > size && IsFarthest(entries[i := dist[i]], f)
    requires after == entries[i := dist[i]] - {f}
    ensures Agrees(after, dist) && KeepsNearest(size, dist, after.Keys, dropped')
    ensures after.Keys + dropped' == entries.Keys + dropped + {i}
  {
    EvictedKeys(entries, dist, i, f);
    FarthestDistance(entries, dist, i, f);
    KeepsNearestEvict(size, dist, entries.Keys, dropped, i, f);
    dropped' := dropped + {f};
  }

  /** The case of `KeepsNearestStep` where the directory has room: the row is kept. */
  lemma KeepStep(size: int, dist: seq<real>, entries: map<nat, real>, dropped: set<nat>, i: nat, after: map<nat, real>)
    requires Agrees(entries, dist) && KeepsNearest(size, dist, entries.Keys, dropped)
    requires i < |dist| && i !in entries && i !in dropped
    requires |entries[i := dist[i]]| <= size && after == entries[i := dist[i]]
    ensures dropped == {} && Agrees(after, dist) && KeepsNearest(size, dist, after.Keys, dropped)
    ensures after.Keys + dropped == entries.Keys + dropped + {i}
  {
    assert after.Keys == entries.Keys + {i};
    KeepsNearestKeep(size, dist, entries.Keys, dropped, i);
  }

  /** The directory after putting row `i` with its distance and removing `f`. */
  lemma EvictedKeys(entries: map<nat, real>, dist: seq<real>, i: nat, f: nat)
    requires Agrees(entries, dist) && i < |dist| && i !in entries
    ensures |entries[i := dist[i]]| == |entries.Keys| + 1
    ensures (entries[i := dist[i]] - {f}).Keys == entries.Keys + {i} - {f}
    ensures Agrees(entries[i := dist[i]] - {f}, dist)
  {
    assert entries[i := dist[i]].Keys == entries.Keys + {i};
  }

  /** A farthest entry of a directory that agrees with `dist` is a farthest row by `dist`. */
  lemma FarthestDistance(entries: map<nat, real>, dist: seq<real>, i: nat, f: nat)
    requires Agrees(entries, dist) && i < |dist|
    requires IsFarthest(entries[i := dist[i]], f)
    ensures f in entries.Keys + {i}
    ensures forall g :: g in entries.Keys + {i} ==> dist[g] <= dist[f]
  {
    var put := entries[i := dist[i]];
    forall g | g in entries.Keys + {i}
      ensures dist[g] <= dist[f]
    {
      assert g in put;
    }
  }

  /** A row offered while the directory has room is kept, and nothing was dropped before. */
  lemma KeepsNearestKeep(size: int, dist: seq<real>, kept: set<nat>, dropped: set<nat>, i: nat)
    requires KeepsNearest(size, dist, kept, dropped)
    requires i < |dist| && i !in kept && i !in dropped
    requires |kept| + 1 <= size
    ensures dropped == {} && KeepsNearest(size, dist, kept + {i}, dropped)
  {
  }

  /** A row offered to a full directory evicts a farthest row, which joins the dropped rows. */
  lemma KeepsNearestEvict(size: int, dist: seq<real>, kept: set<nat>, dropped: set<nat>, i: nat, f: nat)
    requires KeepsNearest(size, dist, kept, dropped)
    requires i < |dist| && i !in kept && i !in dropped
    requires |kept| + 1 > size
    requires f in kept + {i} && forall g :: g in kept + {i} ==> dist[g] <= dist[f]
    ensures KeepsNearest(size, dist, kept + {i} - {f}, dropped + {f})
  {
    assert |kept + {i} - {f}| == |kept|;
    forall g, h | g in kept + {i} - {f} && h in dropped + {f}
      ensures dist[g] <= dist[h]
    {
      if h != f && g == i {
        assert f in kept && dist[f] <= dist[h];
      }
    }
  }

  /** The k-nearest-neighbour learner's state that outlives a single prediction. */
  class InstanceBasedLearner {
    var kNeighbors: int
    /** Rows left out of every prediction. */
    var ignore: set<nat>

    constructor ()
      ensures kNeighbors == 1 && ignore == {}
    {
      kNeighbors := 1;
      ignore := {};
    }

    /** `setkNeighbors`. */
    method SetKNeighbors(k: int)
      modifies this
      ensures kNeighbors == k && ignore == old(ignore)
    {
      kNeighbors := k;
    }

    /**
     * The ignore-set update of `train`, with `scores[i]` the distance score of row `i`:
     * every row scoring above 1.0 is added; rows ignored before stay ignored.
     */
    method Train(scores: seq<real>)
      modifies this
      ensures ignore == old(ignore) + Outliers(scores)
      ensures kNeighbors == old(kNeighbors)
    {
      var i := 0;
      while i < |scores|
        invariant 0 <= i <= |scores|
        invariant ignore == old(ignore) + Outliers(scores[..i])
        invariant kNeighbors == old(kNeighbors)
      {
        assert Outliers(scores[..i + 1]) == Outliers(scores[..i]) + (if scores[i] > 1.0 then {i} else {});
        if scores[i] > 1.0 {
          ignore := ignore + {i};
        }
        i := i + 1;
      }
      assert scores[..|scores|] == scores;
    }

    /**
     * The neighbour selection of `predict`, with `dist[i]` the distance from the query to
     * row `i`: every row not ignored is offered to a directory of `kNeighbors` entries, and
     * its keys are the neighbours. They are distinct, never ignored, no farther than any
     * candidate left out, and as many as the capacity allows.
     */
    method Predict(dist: seq<real>) returns (nearest: seq<nat>)
      ensures forall x :: x in nearest ==> x < |dist| && x !in ignore
      ensures forall p, q :: 0 <= p < q < |nearest| ==> nearest[p] != nearest[q]
      ensures forall g, h :: g in nearest && 0 <= h < |dist| && h !in ignore && h !in nearest ==> dist[g] <= dist[h]
      ensures |nearest| == if |Candidates(|dist|, ignore)| < Capacity(kNeighbors) then |Candidates(|dist|, ignore)| else Capacity(kNeighbors)
    {
      var directory := new Directory(kNeighbors);
      ghost var dropped := OfferCandidates(directory, dist);
      nearest := directory.Nn();
      NearestSelection(kNeighbors, dist, ignore, directory.entries, dropped, nearest);
    }

    /** The row loop of `predict`: every row not ignored is added to `directory` with its distance. */
    method OfferCandidates(directory: Directory, dist: seq<real>) returns (ghost dropped: set<nat>)
      requires directory.entries == map[]
      modifies directory
      ensures Agrees(directory.entries, dist)
      ensures KeepsNearest(directory.size, dist, directory.entries.Keys, dropped)
      ensures OfferedBelow(directory.entries.Keys + dropped, |dist|, ignore)
    {
      dropped := {};
      var i := 0;
      while i < |dist|
        invariant 0 <= i <= |dist|
        invariant Agrees(directory.entries, dist)
        invariant KeepsNearest(directory.size, dist, directory.entries.Keys, dropped)
        invariant OfferedBelow(directory.entries.Keys + dropped, i, ignore)
      {
        dropped := OfferRow(directory, dist, i, dropped);
        i := i + 1;
      }
    }

    /** One pass of the row loop of `predict`: row `i` is skipped when ignored and added otherwise. */
    method OfferRow(directory: Directory, dist: seq<real>, i: nat, ghost dropped: set<nat>) returns (ghost dropped': set<nat>)
      requires i < |dist|
      requires Agrees(directory.entries, dist)
      requires KeepsNearest(directory.size, dist, directory.entries.Keys, dropped)
      requires OfferedBelow(directory.entries.Keys + dropped, i, ignore)
      modifies directory
      ensures Agrees(directory.entries, dist)
      ensures KeepsNearest(directory.size, dist, directory.entries.Keys, dropped')
      ensures OfferedBelow(directory.entries.Keys + dropped', i + 1, ignore)
    {
      if i in ignore {
        dropped' := dropped;
      } else {
        ghost var before := directory.entries;
        directory.Add(i, dist[i]);
        dropped' := KeepsNearestStep(directory.size, dist, before, dropped, i, directory.entries);
      }
    }
  }

  /**
   * The keys of a directory that was offered every candidate and kept the nearest are not
   * ignored, no farther than any candidate left out, and as many as the capacity allows.
   */
  lemma NearestSelection(size: int, dist: seq<real>, ignore: set<nat>, entries: map<nat, real>, dropped: set<nat>, nearest: seq<nat>)
    requires KeepsNearest(size, dist, entries.Keys, dropped)
    requires OfferedBelow(entries.Keys + dropped, |dist|, ignore)
    requires (forall x :: x in nearest <==> x in entries) && |nearest| == |entries|
    ensures forall x :: x in nearest ==> x < |dist| && x !in ignore
    ensures forall g, h :: g in nearest && 0 <= h < |dist| && h !in ignore && h !in nearest ==> dist[g] <= dist[h]
    ensures |nearest| == if |Candidates(|dist|, ignore)| < Capacity(size) then |Candidates(|dist|, ignore)| else Capacity(size)
  {
    CandidatesSpec(|dist|, ignore);
    assert entries.Keys + dropped == Candidates(|dist|, ignore);
    assert |entries.Keys| + |dropped| == |Candidates(|dist|, ignore)|;
    forall g, h | g in nearest && 0 <= h < |dist| && h !in ignore && h !in nearest
      ensures dist[g] <= dist[h]
    {
      assert h in Candidates(|dist|, ignore);
    }
  }
}
