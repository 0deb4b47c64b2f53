/**
 * The dataset snapshot that the decision-tree learner works on: a table of nominal
 * feature codes with one target class per row, the value counts and the
 * (feature value x class) contingency counts the information gains are computed from,
 * and the split of a snapshot into one snapshot per value of a chosen column.
 */
module DecisionTree {
  import opened Common

  /**
   * A snapshot: `rows[r][f]` is the nominal code of feature `f` in row `r`,
   * `targets[r]` the class of row `r`, `arity[f]` the number of values column `f`
   * declares, and `classes` the number of values the target column declares.
   */
  datatype EntrySet = EntrySet(rows: seq<seq<nat>>, targets: seq<nat>, arity: seq<nat>, classes: nat)

  /** The table is rectangular and every row has a target. */
  predicate Valid(e: EntrySet)
  {
    && |e.targets| == |e.rows|
    && forall r :: 0 <= r < |e.rows| ==> |e.rows[r]| == |e.arity|
  }

  /** Every code in column `col` indexes a slot of a count array of that column's arity. */
  predicate ColumnInRange(e: EntrySet, col: nat)
    requires col < |e.arity|
  {
    forall r :: 0 <= r < |e.rows| ==> col < |e.rows[r]| && e.rows[r][col] < e.arity[col]
  }

  /** The indices of the rows whose column `col` holds `v`, in ascending order. */
  function Matching(rows: seq<seq<nat>>, col: nat, v: nat): (m: seq<nat>)
    ensures forall k :: 0 <= k < |m| ==> m[k] < |rows|
    decreases |rows|
  {
    if |rows| == 0 then []
    else
      var n := |rows| - 1;
      Matching(rows[..n], col, v) + (if col < |rows[n]| && rows[n][col] == v then [n] else [])
  }

  /** The matching rows are listed in their original order, each once. */
  lemma {:induction false} MatchingAscending(rows: seq<seq<nat>>, col: nat, v: nat)
    ensures forall k, l :: 0 <= k < l < |Matching(rows, col, v)| ==> Matching(rows, col, v)[k] < Matching(rows, col, v)[l]
  {
    if |rows| > 0 {
      MatchingAscending(rows[..|rows| - 1], col, v);
    }
  }

  /** A row is among the matching rows exactly when its column `col` holds `v`. */
  lemma {:induction false} MatchingExact(rows: seq<seq<nat>>, col: nat, v: nat, r: nat)
    requires r < |rows| && col < |rows[r]|
    ensures r in Matching(rows, col, v) <==> rows[r][col] == v
  {
    var n := |rows| - 1;
    if r < n {
      MatchingExact(rows[..n], col, v, r);
    }
  }

  /** Extending the scanned prefix by one row appends that row's index when it matches. */
  lemma MatchingStep(rows: seq<seq<nat>>, col: nat, v: nat, i: nat)
    requires i < |rows|
    ensures Matching(rows[..i + 1], col, v)
         == Matching(rows[..i], col, v) + (if col < |rows[i]| && rows[i][col] == v then [i] else [])
  {
    assert rows[..i + 1][..i] == rows[..i];
  }

  /** Scanning a longer prefix never finds fewer matching rows. */
  lemma {:induction false} MatchingMonotone(rows: seq<seq<nat>>, col: nat, v: nat, i: nat, j: nat)
    requires i <= j <= |rows|
    ensures |Matching(rows[..i], col, v)| <= |Matching(rows[..j], col, v)|
    decreases j - i
  {
    if i < j {
      MatchingStep(rows, col, v, j - 1);
      MatchingMonotone(rows, col, v, i, j - 1);
    }
  }

  /** The number of matching rows of each value below `n`. */
  function Histogram(rows: seq<seq<nat>>, col: nat, n: nat): seq<nat>
  {
    seq(n, v requires 0 <= v => |Matching(rows, col, v)|)
  }

  /**
   * The per-value row counts of a column whose codes are all below `n` add up to the
   * number of rows: every row is counted for exactly one value.
   */
  lemma {:induction false} CountsSumToRows(rows: seq<seq<nat>>, col: nat, n: nat)
    requires forall r :: 0 <= r < |rows| ==> col < |rows[r]| && rows[r][col] < n
    ensures Sum(Histogram(rows, col, n)) == |rows|
  {
    if |rows| == 0 {
      assert Histogram(rows, col, n) == seq(n, _ => 0);
      SumZeros(n);
    } else {
      var m := |rows| - 1;
      var w := rows[m][col];
      var before := Histogram(rows[..m], col, n);
      var after := Histogram(rows, col, n);
      assert rows[..m + 1] == rows;
      forall v | 0 <= v < n
        ensures after[v] == before[v] + (if v == w then 1 else 0)
      {
        MatchingStep(rows, col, v, m);
      }
      assert after == before[w := before[w] + 1];
      CountsSumToRows(rows[..m], col, n);
      SumUpdate(before, w, before[w] + 1);
    }
  }

  /** Row `row` without column `col`: earlier columns keep their place, later ones move left. */
  function DeleteAt(row: seq<nat>, col: nat): (r: seq<nat>)
    requires col < |row|
    ensures |r| == |row| - 1
    ensures forall j :: 0 <= j < col ==> r[j] == row[j]
    ensures forall j :: col <= j < |r| ==> r[j] == row[j + 1]
  {
    row[..col] + row[col + 1..]
  }

  /** The elements of `s` at the indices `m`, in the order of `m`. */
  function Pick(s: seq<nat>, m: seq<nat>): seq<nat>
    requires forall k :: 0 <= k < |m| ==> m[k] < |s|
  {
    seq(|m|, k requires 0 <= k < |m| => s[m[k]])
  }

  /** The rows at the indices `m`, each without column `col`. */
  function Project(rows: seq<seq<nat>>, m: seq<nat>, col: nat): seq<seq<nat>>
    requires forall k :: 0 <= k < |m| ==> m[k] < |rows| && col < |rows[m[k]]|
  {
    seq(|m|, k requires 0 <= k < |m| => DeleteAt(rows[m[k]], col))
  }

  /** Picking one more index appends that element. */
  lemma PickAppend(s: seq<nat>, m: seq<nat>, i: nat)
    requires i < |s| && forall k :: 0 <= k < |m| ==> m[k] < |s|
    ensures Pick(s, m + [i]) == Pick(s, m) + [s[i]]
  {
  }

  /** Projecting one more row appends that row without column `col`. */
  lemma ProjectAppend(rows: seq<seq<nat>>, m: seq<nat>, i: nat, col: nat)
    requires i < |rows| && col < |rows[i]|
    requires forall k :: 0 <= k < |m| ==> m[k] < |rows| && col < |rows[m[k]]|
    ensures Project(rows, m + [i], col) == Project(rows, m, col) + [DeleteAt(rows[i], col)]
  {
  }

  /** Slot `c` of `counts` is the number of occurrences of `c` in `s`. */
  predicate Tallies(counts: seq<nat>, s: seq<nat>)
  {
    forall c :: 0 <= c < |counts| ==> counts[c] == multiset(s)[c]
  }

  /** Appending `c` to the tallied sequence increments slot `c`. */
  lemma TalliesStep(counts: seq<nat>, s: seq<nat>, c: nat)
    requires Tallies(counts, s) && c < |counts|
    ensures Tallies(counts[c := counts[c] + 1], s + [c])
  {
    assert multiset(s + [c]) == multiset(s) + multiset{c};
  }

  /** How many rows with value `v` in column `col` have target class `c`. */
  function ClassCount(e: EntrySet, col: nat, v: nat, c: nat): nat
    requires Valid(e)
  {
    multiset(Pick(e.targets, Matching(e.rows, col, v)))[c]
  }

  /**
   * The snapshot of the rows whose column `col` holds `v`: those rows in their
   * original order, column `col` deleted, each with its own target.
   */
  function Partition(e: EntrySet, col: nat, v: nat): (p: EntrySet)
    requires Valid(e) && col < |e.arity|
    ensures Valid(p)
    ensures |p.arity| == |e.arity| - 1
    ensures |p.rows| == |Matching(e.rows, col, v)|
  {
    var m := Matching(e.rows, col, v);
    EntrySet(Project(e.rows, m, col), Pick(e.targets, m), DeleteAt(e.arity, col), e.classes)
  }

  /** The number of rows of each snapshot. */
  function RowCounts(parts: seq<EntrySet>): seq<nat>
  {
    seq(|parts|, i requires 0 <= i < |parts| => |parts[i].rows|)
  }

  /** `featureCounts`: slot `v` counts the rows whose column `col` holds `v`. */
  method FeatureCounts(e: EntrySet, col: nat) returns (counts: seq<nat>)
    requires Valid(e) && col < |e.arity| && ColumnInRange(e, col)
    ensures |counts| == e.arity[col]
    ensures forall v :: 0 <= v < |counts| ==> counts[v] == |Matching(e.rows, col, v)|
    ensures Sum(counts) == |e.rows|
  {
    var a := new nat[e.arity[col]](_ => 0);
    var i := 0;
    while i < |e.rows|
      invariant 0 <= i <= |e.rows|
      invariant forall v :: 0 <= v < a.Length ==> a[v] == |Matching(e.rows[..i], col, v)|
    {
      var w := e.rows[i][col];
      forall v | 0 <= v < a.Length
        ensures |Matching(e.rows[..i + 1], col, v)| == |Matching(e.rows[..i], col, v)| + (if v == w then 1 else 0)
      {
        MatchingStep(e.rows, col, v, i);
      }
      a[w] := a[w] + 1;
      i := i + 1;
    }
    assert e.rows[..|e.rows|] == e.rows;
    counts := a[..];
    CountsSumToRows(e.rows, col, e.arity[col]);
    assert counts == Histogram(e.rows, col, e.arity[col]);
  }

  /**
   * `featureClassCounts`: slot `c` counts the rows with value `v` in column `col` and
   * target class `c`; the slots add up to the number of rows with value `v`.
   */
  method FeatureClassCounts(e: EntrySet, col: nat, v: nat) returns (counts: seq<nat>)
    requires Valid(e) && col < |e.arity|
    requires forall r :: 0 <= r < |e.rows| && e.rows[r][col] == v ==> e.targets[r] < e.classes
    ensures |counts| == e.classes
    ensures forall c :: 0 <= c < |counts| ==> counts[c] == ClassCount(e, col, v, c)
    ensures Sum(counts) == |Matching(e.rows, col, v)|
  {
    var a := new nat[e.classes](_ => 0);
    assert a[..] == seq(e.classes, _ => 0);
    SumZeros(e.classes);
    ghost var m: seq<nat> := [];
    ghost var picked: seq<nat> := [];
    var i := 0;
    while i < |e.rows|
      invariant 0 <= i <= |e.rows|
      invariant m == Matching(e.rows[..i], col, v)
      invariant picked == Pick(e.targets, m)
      invariant Tallies(a[..], picked)
      invariant Sum(a[..]) == |m|
    {
      MatchingStep(e.rows, col, v, i);
      if e.rows[i][col] == v {
        CountClass(e, i, a, m, picked);
        m := m + [i];
        picked := picked + [e.targets[i]];
      }
      i := i + 1;
    }
    assert e.rows[..|e.rows|] == e.rows;
    counts := a[..];
  }

  /** One matching row of the `featureClassCounts` loop: the slot of its class goes up by one. */
  method CountClass(e: EntrySet, i: nat, a: array<nat>, ghost m: seq<nat>, ghost picked: seq<nat>)
    requires Valid(e) && i < |e.rows| && e.targets[i] < a.Length
    requires forall k :: 0 <= k < |m| ==> m[k] < |e.targets|
    requires picked == Pick(e.targets, m)
    requires Tallies(a[..], picked) && Sum(a[..]) == |m|
    modifies a
    ensures Pick(e.targets, m + [i]) == picked + [e.targets[i]]
    ensures Tallies(a[..], picked + [e.targets[i]]) && Sum(a[..]) == |m| + 1
  {
    var c := e.targets[i];
    PickAppend(e.targets, m, i);
    SumUpdate(a[..], c, a[c] + 1);
    TalliesStep(a[..], picked, c);
    a[c] := a[c] + 1;
  }

  /** Row `row` with column `col` deleted, filled cell by cell. */
  method DeleteColumn(row: seq<nat>, col: nat) returns (cells: seq<nat>)
    requires col < |row|
    ensures cells == DeleteAt(row, col)
  {
    var a := new nat[|row| - 1];
    var column := 0;
    while column < |row| - 1
      invariant 0 <= column <= |row| - 1
      invariant forall j :: 0 <= j < column && j < col ==> a[j] == row[j]
      invariant forall j :: col <= j < column ==> a[j] == row[j + 1]
    {
      if column >= col {
        a[column] := row[column + 1];
      } else {
        a[column] := row[column];
      }
      column := column + 1;
    }
    cells := a[..];
  }

  /**
   * One partition of `splitOnFeature`: the matching rows are copied into a table of
   * `size` rows through a running cursor, together with their targets.
   */
  method SelectPartition(e: EntrySet, col: nat, v: nat, size: nat) returns (part: EntrySet)
    requires Valid(e) && col < |e.arity|
    requires size == |Matching(e.rows, col, v)|
    ensures part == Partition(e, col, v)
  {
    var newMatrix := new seq<nat>[size];
    var newTargets := new nat[size];
    var newRow := 0;
    ghost var m: seq<nat> := [];
    var row := 0;
    while row < |e.rows|
      invariant 0 <= row <= |e.rows|
      invariant m == Matching(e.rows[..row], col, v)
      invariant newRow == |m| <= size
      invariant forall k :: 0 <= k < |m| ==> m[k] < row
      invariant newMatrix[..newRow] == Project(e.rows, m, col)
      invariant newTargets[..newRow] == Pick(e.targets, m)
    {
      MatchingStep(e.rows, col, v, row);
      if e.rows[row][col] == v {
        MatchingMonotone(e.rows, col, v, row + 1, |e.rows|);
        assert e.rows[..|e.rows|] == e.rows;
        CopyRow(e, col, row, newMatrix, newTargets, newRow, m);
        newRow := newRow + 1;
        m := m + [row];
      }
      row := row + 1;
    }
    assert e.rows[..|e.rows|] == e.rows;
    assert newMatrix[..] == newMatrix[..newRow];
    assert newTargets[..] == newTargets[..newRow];
    part := EntrySet(newMatrix[..], newTargets[..], DeleteAt(e.arity, col), e.classes);
  }

  /** One step of the copy loop: row `row` goes to slot `slot` of the new arrays. */
  method CopyRow(e: EntrySet, col: nat, row: nat, newMatrix: array<seq<nat>>, newTargets: array<nat>,
                 slot: nat, ghost m: seq<nat>)
    requires Valid(e) && col < |e.arity| && row < |e.rows|
    requires slot == |m| < newMatrix.Length && slot < newTargets.Length
    requires forall k :: 0 <= k < |m| ==> m[k] < row
    requires newMatrix[..slot] == Project(e.rows, m, col)
    requires newTargets[..slot] == Pick(e.targets, m)
    modifies newMatrix, newTargets
    ensures newMatrix[..slot + 1] == Project(e.rows, m + [row], col)
    ensures newTargets[..slot + 1] == Pick(e.targets, m + [row])
  {
    newTargets[slot] := e.targets[row];
    var cells := DeleteColumn(e.rows[row], col);
    newMatrix[slot] := cells;
    assert newMatrix[..slot + 1] == newMatrix[..slot] + [cells];
    assert newTargets[..slot + 1] == newTargets[..slot] + [e.targets[row]];
    ProjectAppend(e.rows, m, row, col);
    PickAppend(e.targets, m, row);
  }

  /**
   * `splitOnFeature`: one snapshot per value of column `col` (empty ones included),
   * snapshot `v` holding the rows with value `v`; the partition sizes add up to the
   * number of rows.
   */
  method SplitOnFeature(e: EntrySet, col: nat) returns (parts: seq<EntrySet>)
    requires Valid(e) && col < |e.arity| && ColumnInRange(e, col)
    ensures |parts| == e.arity[col]
    ensures forall v :: 0 <= v < |parts| ==> parts[v] == Partition(e, col, v)
    ensures Sum(RowCounts(parts)) == |e.rows|
  {
    var counts := FeatureCounts(e, col);
    var results := new EntrySet[e.arity[col]];
    var featureIndex := 0;
    while featureIndex < e.arity[col]
      invariant 0 <= featureIndex <= e.arity[col]
      invariant forall v :: 0 <= v < featureIndex ==> results[v] == Partition(e, col, v)
    {
      var part := SelectPartition(e, col, featureIndex, counts[featureIndex]);
      results[featureIndex] := part;
      featureIndex := featureIndex + 1;
    }
    parts := results[..];
    assert RowCounts(parts) == counts;
  }

  /** A contingency table of column `col`: per value, per class, the number of rows. */
  predicate IsContingencyTable(e: EntrySet, col: nat, t: seq<seq<nat>>)
    requires Valid(e) && col < |e.arity|
  {
    && |t| == e.arity[col]
    && forall v :: 0 <= v < |t| ==>
         && |t[v]| == e.classes
         && Sum(t[v]) == |Matching(e.rows, col, v)|
         && forall c :: 0 <= c < |t[v]| ==> t[v][c] == ClassCount(e, col, v, c)
  }

  /**
   * The integer part of `getFeatureInfoGains`: exactly one entry per column, each the
   * (value x class) table that column's gain is computed from.
   */
  method FeatureInfoGainTables(e: EntrySet) returns (tables: seq<seq<seq<nat>>>)
    requires Valid(e)
    requires forall f :: 0 <= f < |e.arity| ==> ColumnInRange(e, f)
    requires |e.arity| > 0 ==> forall r :: 0 <= r < |e.rows| ==> e.targets[r] < e.classes
    ensures |tables| == |e.arity|
    ensures forall f :: 0 <= f < |tables| ==> IsContingencyTable(e, f, tables[f])
  {
    tables := [];
    var feature := 0;
    while feature < |e.arity|
      invariant 0 <= feature <= |e.arity|
      invariant |tables| == feature
      invariant forall f :: 0 <= f < feature ==> IsContingencyTable(e, f, tables[f])
    {
      var featureCount := FeatureCounts(e, feature);
      var table: seq<seq<nat>> := [];
      var i := 0;
      while i < |featureCount|
        invariant 0 <= i <= |featureCount|
        invariant |table| == i
        invariant forall v :: 0 <= v < i ==>
          && |table[v]| == e.classes
          && Sum(table[v]) == |Matching(e.rows, feature, v)|
          && forall c :: 0 <= c < |table[v]| ==> table[v][c] == ClassCount(e, feature, v, c)
      {
        var featureClassCount := FeatureClassCounts(e, feature, i);
        table := table + [featureClassCount];
        i := i + 1;
      }
      tables := tables + [table];
      feature := feature + 1;
    }
  }
}
