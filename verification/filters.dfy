/** The postcode row cleaner: three independently switchable filters,
    applied in a fixed order (missing coordinates, then terminated
    postcodes, then duplicate postcodes). Each one is a no-op when the column
    it needs is absent. */
module Filters {
  import opened Common
  import Config
  import opened Tables

  datatype CleanOptions = CleanOptions(
    dropMissingCoords: bool,
    dropDuplicates: bool,
    terminationColumn: Option<string>,
    onlyActive: bool)

  /** The defaults of `filter_postcodes_basic`. */
  const DefaultOptions: CleanOptions :=
    CleanOptions(true, true, Some(Config.DefaultTerminationColumn), true)

  /** A termination value that means "not terminated": missing, `""` or `" "`. */
  predicate IsActiveValue(v: Value)
  {
    v.Missing? || v == Text("") || v == Text(" ")
  }

  /** The row test of step 2 for termination column `col`. */
  function ActiveIn(col: string): Row -> bool
  {
    row => IsActiveValue(Cell(row, col))
  }

  function PostcodeKey(row: Row): Value
  {
    Cell(row, Config.PostcodeColumn)
  }

  /** Step 1 runs when switched on and both coordinate columns exist. */
  predicate CoordStepRuns(t: Table, opts: CleanOptions)
  {
    opts.dropMissingCoords && Config.EastingColumn in t.columns && Config.NorthingColumn in t.columns
  }

  /** Step 2 runs when switched on and the termination column is named and
      present; an empty or absent name switches the step off. */
  predicate ActiveStepRuns(t: Table, opts: CleanOptions)
  {
    && opts.onlyActive
    && opts.terminationColumn.Some? && opts.terminationColumn.value != ""
    && opts.terminationColumn.value in t.columns
  }

  /** Step 3 runs when switched on and the postcode column exists. */
  predicate DedupeStepRuns(t: Table, opts: CleanOptions)
  {
    opts.dropDuplicates && Config.PostcodeColumn in t.columns
  }

  /** Step 1: drop rows lacking either coordinate. */
  function DropMissingCoords(t: Table, opts: CleanOptions): (r: Table)
    ensures r.columns == t.columns
    ensures IsSubseq(r.rows, t.rows)
    ensures CoordStepRuns(t, opts) ==> forall row :: row in r.rows ==> HasCoordinates(row)
    ensures CoordStepRuns(t, opts) ==> forall row :: HasCoordinates(row) ==>
              multiset(r.rows)[row] == multiset(t.rows)[row]
    ensures !CoordStepRuns(t, opts) ==> r == t
  {
    if CoordStepRuns(t, opts) then
      FilterIsSubseq(t.rows, HasCoordinates);
      FilterCount(t.rows, HasCoordinates);
      Table(t.columns, Filter(t.rows, HasCoordinates))
    else
      SubseqRefl(t.rows);
      t
  }

  /** Step 2: keep only rows whose termination value means "active". */
  function KeepActive(t: Table, opts: CleanOptions): (r: Table)
    ensures r.columns == t.columns
    ensures IsSubseq(r.rows, t.rows)
    ensures ActiveStepRuns(t, opts) ==> forall row :: row in r.rows ==>
              IsActiveValue(Cell(row, opts.terminationColumn.value))
    ensures ActiveStepRuns(t, opts) ==> forall row ::
              IsActiveValue(Cell(row, opts.terminationColumn.value)) ==>
              multiset(r.rows)[row] == multiset(t.rows)[row]
    ensures !ActiveStepRuns(t, opts) ==> r == t
  {
    if ActiveStepRuns(t, opts) then
      var col := opts.terminationColumn.value;
      FilterIsSubseq(t.rows, ActiveIn(col));
      FilterCount(t.rows, ActiveIn(col));
      Table(t.columns, Filter(t.rows, ActiveIn(col)))
    else
      SubseqRefl(t.rows);
      t
  }

  /** Step 3: keep the first row of each postcode. */
  function DropDuplicatePostcodes(t: Table, opts: CleanOptions): (r: Table)
    ensures r.columns == t.columns
    ensures IsSubseq(r.rows, t.rows)
    ensures DedupeStepRuns(t, opts) ==> DistinctKeys(r.rows, PostcodeKey)
    ensures DedupeStepRuns(t, opts) ==> forall k :: 0 <= k < |r.rows| ==>
              exists i :: 0 <= i < |t.rows| && t.rows[i] == r.rows[k] && FirstWithKey(t.rows, PostcodeKey, i)
    ensures DedupeStepRuns(t, opts) ==> forall row :: row in t.rows ==>
              exists k :: 0 <= k < |r.rows| && PostcodeKey(r.rows[k]) == PostcodeKey(row)
    ensures DedupeStepRuns(t, opts) ==> forall i :: 0 <= i < |t.rows| && FirstWithKey(t.rows, PostcodeKey, i) ==>
              t.rows[i] in r.rows
    ensures DedupeStepRuns(t, opts) ==> r.rows == FirstOccurrences(t.rows, PostcodeKey)
    ensures !DedupeStepRuns(t, opts) ==> r == t
  {
    if DedupeStepRuns(t, opts) then
      DedupeKeepsFirst(t.rows, PostcodeKey, {});
      DedupeKeepsEveryFirst(t.rows, PostcodeKey);
      DedupeIsFirstOccurrences(t.rows, PostcodeKey);
      Table(t.columns, DedupeFrom(t.rows, PostcodeKey, {}))
    else
      SubseqRefl(t.rows);
      t
  }

  /** `row` passes each of steps 1 and 2 that runs on `t`. */
  predicate PassesFirstTwo(t: Table, opts: CleanOptions, row: Row)
  {
    && (CoordStepRuns(t, opts) ==> HasCoordinates(row))
    && (ActiveStepRuns(t, opts) ==> IsActiveValue(Cell(row, opts.terminationColumn.value)))
  }

  /** The rows left after steps 1 and 2: in order, exactly the input rows
      that pass each of the two steps that runs, each as often as in the
      input. */
  function LocatedActive(t: Table, opts: CleanOptions): (r: Table)
    ensures r.columns == t.columns
    ensures IsSubseq(r.rows, t.rows)
    ensures forall row :: row in r.rows <==> row in t.rows && PassesFirstTwo(t, opts, row)
    ensures forall row :: multiset(r.rows)[row] ==
              if PassesFirstTwo(t, opts, row) then multiset(t.rows)[row] else 0
  {
    var t1 := DropMissingCoords(t, opts);
    var t2 := KeepActive(t1, opts);
    SubseqTrans(t2.rows, t1.rows, t.rows);
    SubseqMembers(t2.rows, t1.rows);
    SubseqMembers(t1.rows, t.rows);
    assert forall row :: row in t2.rows <==> multiset(t2.rows)[row] > 0;
    assert forall row :: row in t1.rows <==> multiset(t1.rows)[row] > 0;
    assert forall row :: row in t.rows <==> multiset(t.rows)[row] > 0;
    t2
  }

  /** `filter_postcodes_basic`: the output keeps the columns, is a
      subsequence of the input rows, and satisfies each switched-on filter;
      de-duplication picks, among the rows that survived steps 1 and 2, the
      first of each postcode, in order of position. */
  function FilterPostcodesBasic(t: Table, opts: CleanOptions): (r: Table)
    ensures r.columns == t.columns
    ensures IsSubseq(r.rows, t.rows)
    ensures CoordStepRuns(t, opts) ==> forall row :: row in r.rows ==> HasCoordinates(row)
    ensures ActiveStepRuns(t, opts) ==> forall row :: row in r.rows ==>
              IsActiveValue(Cell(row, opts.terminationColumn.value))
    ensures DedupeStepRuns(t, opts) ==> DistinctKeys(r.rows, PostcodeKey)
    ensures DedupeStepRuns(t, opts) ==> forall k :: 0 <= k < |r.rows| ==>
              var s := LocatedActive(t, opts).rows;
              exists i :: 0 <= i < |s| && s[i] == r.rows[k] && FirstWithKey(s, PostcodeKey, i)
    ensures DedupeStepRuns(t, opts) ==> forall i :: var s := LocatedActive(t, opts).rows;
              0 <= i < |s| && FirstWithKey(s, PostcodeKey, i) ==> s[i] in r.rows
    ensures DedupeStepRuns(t, opts) ==> r.rows == FirstOccurrences(LocatedActive(t, opts).rows, PostcodeKey)
    ensures !DedupeStepRuns(t, opts) ==> r.rows == LocatedActive(t, opts).rows
  {
    var t1 := DropMissingCoords(t, opts);
    var t2 := KeepActive(t1, opts);
    assert t2 == LocatedActive(t, opts);
    var t3 := DropDuplicatePostcodes(t2, opts);
    SubseqTrans(t2.rows, t1.rows, t.rows);
    SubseqTrans(t3.rows, t2.rows, t.rows);
    SubseqTrans(t3.rows, t2.rows, t1.rows);
    SubseqMembers(t3.rows, t1.rows);
    SubseqMembers(t3.rows, t2.rows);
    t3
  }

  /** Cleaning twice with the same options is cleaning once: the output
      already passes every filter, so a second pass removes nothing. */
  lemma FilterIdempotent(t: Table, opts: CleanOptions)
    ensures FilterPostcodesBasic(FilterPostcodesBasic(t, opts), opts) == FilterPostcodesBasic(t, opts)
  {
    var c := FilterPostcodesBasic(t, opts);
    assert c.columns == t.columns;
    if CoordStepRuns(c, opts) {
      FilterKeepsAll(c.rows, HasCoordinates);
    }
    var c1 := DropMissingCoords(c, opts);
    assert c1 == c;
    if ActiveStepRuns(c, opts) {
      var col := opts.terminationColumn.value;
      FilterKeepsAll(c.rows, ActiveIn(col));
    }
    var c2 := KeepActive(c1, opts);
    assert c2 == c;
    if DedupeStepRuns(c, opts) {
      DedupeDistinct(c.rows, PostcodeKey, {});
    }
  }

  lemma {:induction false} DropMiddleTwo(r1: Row, r2: Row, r3: Row, r4: Row)
    requires HasCoordinates(r1) && !HasCoordinates(r2) && !HasCoordinates(r3) && HasCoordinates(r4)
    ensures Filter([r1, r2, r3, r4], HasCoordinates) == [r1, r4]
  {
    assert [r1, r2, r3, r4][1..] == [r2, r3, r4];
    assert [r2, r3, r4][1..] == [r3, r4];
    assert [r3, r4][1..] == [r4];
    assert [r4][1..] == [];
    assert Filter([r4], HasCoordinates) == [r4];
    assert Filter([r3, r4], HasCoordinates) == [r4];
    assert Filter([r2, r3, r4], HasCoordinates) == [r4];
    assert Filter([r1, r2, r3, r4], HasCoordinates) == [r1] + Filter([r2, r3, r4], HasCoordinates);
  }

  lemma KeepBoth(r1: Row, r4: Row, p: Row -> bool)
    requires p(r1) && p(r4)
    ensures Filter([r1, r4], p) == [r1, r4]
  {
    assert [r1, r4][1..] == [r4];
    assert [r4][1..] == [];
  }

  lemma DedupeTwo(t: Table, r1: Row, r4: Row, opts: CleanOptions)
    requires t.rows == [r1, r4] && PostcodeKey(r1) != PostcodeKey(r4)
    ensures DropDuplicatePostcodes(t, opts).rows == [r1, r4]
  {
    if DedupeStepRuns(t, opts) {
      assert DistinctKeys(t.rows, PostcodeKey);
      DedupeDistinct(t.rows, PostcodeKey, {});
    }
  }

  /** Four rows where the middle two each lack a coordinate and the outer
      two are active with different postcodes: only the outer two remain. */
  lemma {:induction false} CleanFourRows(t: Table, r1: Row, r2: Row, r3: Row, r4: Row)
    requires t.rows == [r1, r2, r3, r4]
    requires CoordStepRuns(t, DefaultOptions) && ActiveStepRuns(t, DefaultOptions)
    requires HasCoordinates(r1) && !HasCoordinates(r2) && !HasCoordinates(r3) && HasCoordinates(r4)
    requires IsActiveValue(Cell(r1, "doterm")) && IsActiveValue(Cell(r4, "doterm"))
    requires PostcodeKey(r1) != PostcodeKey(r4)
    ensures FilterPostcodesBasic(t, DefaultOptions).rows == [r1, r4]
  {
    var opts := DefaultOptions;
    DropMiddleTwo(r1, r2, r3, r4);
    var t1 := DropMissingCoords(t, opts);
    assert t1.rows == [r1, r4];
    KeepBoth(r1, r4, ActiveIn("doterm"));
    var t2 := KeepActive(t1, opts);
    assert t2.rows == [r1, r4];
    DedupeTwo(t2, r1, r4, opts);
  }

  /** The order of the steps on a concrete table: both `PC2` rows lack a
      coordinate and go in step 1, so de-duplication never sees them. */
  lemma CleanerExample()
    ensures var r1 := map["pcd" := Text("PC1"), "oseast1m" := Int(100), "osnrth1m" := Int(100), "doterm" := Missing];
            var r2 := map["pcd" := Text("PC2"), "oseast1m" := Missing, "osnrth1m" := Int(150), "doterm" := Text("202001")];
            var r3 := map["pcd" := Text("PC2"), "oseast1m" := Int(200), "osnrth1m" := Missing, "doterm" := Text("")];
            var r4 := map["pcd" := Text("PC3"), "oseast1m" := Int(300), "osnrth1m" := Int(350), "doterm" := Missing];
            var t := Table(["pcd", "oseast1m", "osnrth1m", "doterm"], [r1, r2, r3, r4]);
            FilterPostcodesBasic(t, DefaultOptions).rows == [r1, r4]
  {
    var r1 := map["pcd" := Text("PC1"), "oseast1m" := Int(100), "osnrth1m" := Int(100), "doterm" := Missing];
    var r2 := map["pcd" := Text("PC2"), "oseast1m" := Missing, "osnrth1m" := Int(150), "doterm" := Text("202001")];
    var r3 := map["pcd" := Text("PC2"), "oseast1m" := Int(200), "osnrth1m" := Missing, "doterm" := Text("")];
    var r4 := map["pcd" := Text("PC3"), "oseast1m" := Int(300), "osnrth1m" := Int(350), "doterm" := Missing];
    var t := Table(["pcd", "oseast1m", "osnrth1m", "doterm"], [r1, r2, r3, r4]);
    CleanFourRows(t, r1, r2, r3, r4);
  }
}
