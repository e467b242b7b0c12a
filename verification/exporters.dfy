/** Export preparation: drop the geometry column, sort by grid id then
    postcode with missing values last, renumber the rows; and the `.xlsx`
    suffix rule of the Excel export. */
module Exporters {
  import opened Common
  import opened Tables

  const GeometryColumn: string := "geometry"
  const GridIdColumn: string := "matched_grid_id"
  const PostcodeColumn: string := "postcode"

  // ---------------------------------------------------------------------------
  // Python's string order
  // ---------------------------------------------------------------------------

  /** `a <= b` on Python strings: lexicographic by code point, a proper
      prefix coming first. */
  predicate StrLe(a: string, b: string)
    decreases |a|
  {
    a == [] || (b != [] && (a[0] < b[0] || (a[0] == b[0] && StrLe(a[1..], b[1..]))))
  }

  lemma {:induction false} StrLeTotal(a: string, b: string)
    ensures StrLe(a, b) || StrLe(b, a)
    decreases |a|
  {
    if a != [] && b != [] && a[0] == b[0] {
      StrLeTotal(a[1..], b[1..]);
    }
  }

  lemma {:induction false} StrLeTrans(a: string, b: string, c: string)
    requires StrLe(a, b) && StrLe(b, c)
    ensures StrLe(a, c)
    decreases |a|
  {
    if a != [] && a[0] == b[0] && b[0] == c[0] {
      StrLeTrans(a[1..], b[1..], c[1..]);
    }
  }

  lemma {:induction false} StrLeAntisymmetric(a: string, b: string)
    requires StrLe(a, b) && StrLe(b, a)
    ensures a == b
    decreases |a|
  {
    if a != [] {
      StrLeAntisymmetric(a[1..], b[1..]);
      assert a == [a[0]] + a[1..] && b == [b[0]] + b[1..];
    }
  }

  // ---------------------------------------------------------------------------
  // The sort order of `sort_values(by=[id, postcode], na_position="last")`
  // ---------------------------------------------------------------------------

  /** A sort-key cell: a string or missing. */
  predicate IsSortKey(v: Value)
  {
    v.Text? || v.Missing?
  }

  /** Order on one key column: strings by Python order, missing last. */
  predicate KeyLe(v: Value, w: Value)
    requires IsSortKey(v) && IsSortKey(w)
  {
    if v.Missing? then w.Missing?
    else w.Missing? || StrLe(v.s, w.s)
  }

  predicate SortKeysPresent(row: Row)
  {
    IsSortKey(Cell(row, GridIdColumn)) && IsSortKey(Cell(row, PostcodeColumn))
  }

  /** Row order: by grid id; among equal ids, by postcode. */
  predicate RowLe(r: Row, s: Row)
    requires SortKeysPresent(r) && SortKeysPresent(s)
  {
    var i, j := Cell(r, GridIdColumn), Cell(s, GridIdColumn);
    if i == j then KeyLe(Cell(r, PostcodeColumn), Cell(s, PostcodeColumn))
    else KeyLe(i, j)
  }

  lemma KeyLeTotal(v: Value, w: Value)
    requires IsSortKey(v) && IsSortKey(w)
    ensures KeyLe(v, w) || KeyLe(w, v)
  {
    if v.Text? && w.Text? {
      StrLeTotal(v.s, w.s);
    }
  }

  lemma KeyLeTrans(u: Value, v: Value, w: Value)
    requires IsSortKey(u) && IsSortKey(v) && IsSortKey(w)
    requires KeyLe(u, v) && KeyLe(v, w)
    ensures KeyLe(u, w)
  {
    if u.Text? && v.Text? && w.Text? {
      StrLeTrans(u.s, v.s, w.s);
    }
  }

  lemma KeyLeAntisymmetric(v: Value, w: Value)
    requires IsSortKey(v) && IsSortKey(w)
    requires KeyLe(v, w) && KeyLe(w, v)
    ensures v == w
  {
    if v.Text? && w.Text? {
      StrLeAntisymmetric(v.s, w.s);
    }
  }

  lemma RowLeTotal(r: Row, s: Row)
    requires SortKeysPresent(r) && SortKeysPresent(s)
    ensures RowLe(r, s) || RowLe(s, r)
  {
    KeyLeTotal(Cell(r, GridIdColumn), Cell(s, GridIdColumn));
    KeyLeTotal(Cell(r, PostcodeColumn), Cell(s, PostcodeColumn));
  }

  lemma RowLeTrans(r: Row, s: Row, u: Row)
    requires SortKeysPresent(r) && SortKeysPresent(s) && SortKeysPresent(u)
    requires RowLe(r, s) && RowLe(s, u)
    ensures RowLe(r, u)
  {
    var a, b, c := Cell(r, GridIdColumn), Cell(s, GridIdColumn), Cell(u, GridIdColumn);
    if a == b && b == c {
      KeyLeTrans(Cell(r, PostcodeColumn), Cell(s, PostcodeColumn), Cell(u, PostcodeColumn));
    } else if a == b {
    } else if b == c {
    } else {
      KeyLeTrans(a, b, c);
      if a == c {
        KeyLeAntisymmetric(a, b);
      }
    }
  }

  predicate AllSortKeys(rows: seq<Row>)
  {
    forall i :: 0 <= i < |rows| ==> SortKeysPresent(rows[i])
  }

  /** Every row is ordered before every later row. */
  predicate Sorted(rows: seq<Row>)
    requires AllSortKeys(rows)
  {
    forall i, j :: 0 <= i < j < |rows| ==> RowLe(rows[i], rows[j])
  }

  // ---------------------------------------------------------------------------
  // Sorting by insertion
  // ---------------------------------------------------------------------------

  /** A row ordered before every row of a sorted sequence can lead it. */
  lemma ConsSorted(y: Row, rest: seq<Row>)
    requires SortKeysPresent(y) && AllSortKeys(rest) && Sorted(rest)
    requires forall j :: 0 <= j < |rest| ==> RowLe(y, rest[j])
    ensures AllSortKeys([y] + rest) && Sorted([y] + rest)
  {
    var r := [y] + rest;
    assert forall j :: 1 <= j < |r| ==> r[j] == rest[j - 1];
  }

  /** A row ordered before the head of a sorted sequence is ordered before
      all of it. */
  lemma BelowHead(x: Row, s: seq<Row>)
    requires SortKeysPresent(x) && AllSortKeys(s) && Sorted(s) && s != []
    requires RowLe(x, s[0])
    ensures forall j :: 0 <= j < |s| ==> RowLe(x, s[j])
  {
    forall j | 1 <= j < |s|
      ensures RowLe(x, s[j])
    {
      RowLeTrans(x, s[0], s[j]);
    }
  }

  /** The head of a sorted `s` is ordered before every row of any
      permutation of `s[1..]` plus a row it is ordered before. */
  lemma HeadBelowInsertion(s: seq<Row>, x: Row, rest: seq<Row>)
    requires SortKeysPresent(x) && AllSortKeys(s) && Sorted(s) && s != []
    requires RowLe(s[0], x)
    requires multiset(rest) == multiset(s[1..]) + multiset{x}
    ensures AllSortKeys(rest)
    ensures forall j :: 0 <= j < |rest| ==> RowLe(s[0], rest[j])
  {
    forall j | 0 <= j < |rest|
      ensures SortKeysPresent(rest[j]) && RowLe(s[0], rest[j])
    {
      assert rest[j] in multiset(rest);
      if rest[j] != x {
        assert rest[j] in multiset(s[1..]);
        var k :| 0 <= k < |s[1..]| && s[1..][k] == rest[j];
        assert s[k + 1] == rest[j];
      }
    }
  }

  /** Put `x` into the sorted `s`, before the first row it is ordered
      before. */
  function Insert(x: Row, s: seq<Row>): (r: seq<Row>)
    requires SortKeysPresent(x) && AllSortKeys(s) && Sorted(s)
    ensures multiset(r) == multiset(s) + multiset{x}
    ensures AllSortKeys(r) && Sorted(r)
    decreases |s|
  {
    if s == [] then [x]
    else if RowLe(x, s[0]) then
      BelowHead(x, s);
      ConsSorted(x, s);
      [x] + s
    else
      SortedTail(s);
      var rest := Insert(x, s[1..]);
      InsertBehindHead(s, x, rest);
      [s[0]] + rest
  }

  lemma SortedTail(s: seq<Row>)
    requires AllSortKeys(s) && Sorted(s) && s != []
    ensures AllSortKeys(s[1..]) && Sorted(s[1..])
  {
    assert forall j :: 0 <= j < |s[1..]| ==> s[1..][j] == s[j + 1];
  }

  /** A row ordered after the head of a sorted `s`, inserted into the tail,
      keeps the head in front. */
  lemma InsertBehindHead(s: seq<Row>, x: Row, rest: seq<Row>)
    requires SortKeysPresent(x) && AllSortKeys(s) && Sorted(s) && s != []
    requires !RowLe(x, s[0])
    requires multiset(rest) == multiset(s[1..]) + multiset{x}
    requires AllSortKeys(rest) && Sorted(rest)
    ensures multiset([s[0]] + rest) == multiset(s) + multiset{x}
    ensures AllSortKeys([s[0]] + rest) && Sorted([s[0]] + rest)
  {
    RowLeTotal(x, s[0]);
    HeadBelowInsertion(s, x, rest);
    ConsSorted(s[0], rest);
    assert s == [s[0]] + s[1..];
  }

  /** Insertion sort: a sorted permutation of the rows. */
  function SortRows(rows: seq<Row>): (r: seq<Row>)
    requires AllSortKeys(rows)
    ensures multiset(r) == multiset(rows)
    ensures AllSortKeys(r) && Sorted(r)
    decreases |rows|
  {
    if rows == [] then []
    else
      assert rows == [rows[0]] + rows[1..];
      Insert(rows[0], SortRows(rows[1..]))
  }

  /** Sorting rows that are already in order changes nothing. */
  lemma {:induction false} SortSortedIsIdentity(rows: seq<Row>)
    requires AllSortKeys(rows) && Sorted(rows)
    ensures SortRows(rows) == rows
    decreases |rows|
  {
    if rows != [] {
      SortSortedIsIdentity(rows[1..]);
      assert SortRows(rows[1..]) == rows[1..];
      if |rows| > 1 {
        assert RowLe(rows[0], rows[1..][0]);
      }
      assert rows == [rows[0]] + rows[1..];
    }
  }

  /** In a sorted table every row without a grid id comes after every row
      with one. */
  lemma UnmatchedLast(rows: seq<Row>, i: int, j: int)
    requires AllSortKeys(rows) && Sorted(rows)
    requires 0 <= i < j < |rows|
    requires IsNa(Cell(rows[i], GridIdColumn))
    ensures IsNa(Cell(rows[j], GridIdColumn))
  {
    assert RowLe(rows[i], rows[j]);
  }

  // ---------------------------------------------------------------------------
  // prepare_export_table
  // ---------------------------------------------------------------------------

  lemma FilterOutKeepsOthers(columns: seq<string>)
    ensures var r := Filter(columns, (c: string) => c != GeometryColumn);
            && IsSubseq(r, columns)
            && forall c :: c in r <==> c in columns && c != GeometryColumn
  {
    FilterIsSubseq(columns, (c: string) => c != GeometryColumn);
  }

  /** The rows with their `geometry` cells removed. */
  function DropGeometryCells(rows: seq<Row>): (r: seq<Row>)
    ensures |r| == |rows|
    ensures forall i :: 0 <= i < |rows| ==>
              && r[i].Keys == rows[i].Keys - {GeometryColumn}
              && forall c :: c in r[i] ==> r[i][c] == rows[i][c]
  {
    seq(|rows|, i requires 0 <= i < |rows| => rows[i] - {GeometryColumn})
  }

  /** `drop(columns=["geometry"])` when that column is present, a copy
      otherwise: every `geometry` column and cell is removed and nothing
      else changes. */
  function DropGeometry(t: Table): (r: Table)
    requires WellFormed(t)
    ensures GeometryColumn !in r.columns
    ensures forall c :: c in r.columns <==> c in t.columns && c != GeometryColumn
    ensures IsSubseq(r.columns, t.columns)
    ensures |r.rows| == |t.rows|
    ensures forall i :: 0 <= i < |t.rows| ==>
              && r.rows[i].Keys == t.rows[i].Keys - {GeometryColumn}
              && forall c :: c in r.rows[i] ==> r.rows[i][c] == t.rows[i][c]
    ensures WellFormed(r)
    ensures GeometryColumn !in t.columns ==> r == t
  {
    if GeometryColumn in t.columns then
      var columns := Filter(t.columns, (c: string) => c != GeometryColumn);
      FilterOutKeepsOthers(t.columns);
      var r := Table(columns, DropGeometryCells(t.rows));
      assert WellFormed(r) by {
        forall i | 0 <= i < |r.rows|
          ensures r.rows[i].Keys == set c | c in columns
        {
          assert t.rows[i].Keys == set c | c in t.columns;
        }
      }
      r
    else
      SubseqRefl(t.columns);
      assert forall i :: 0 <= i < |t.rows| ==> t.rows[i].Keys == set c | c in t.columns;
      assert forall i :: 0 <= i < |t.rows| ==> t.rows[i].Keys - {GeometryColumn} == t.rows[i].Keys;
      t
  }

  /** Dropping the geometry leaves both sort keys of a row as they were. */
  lemma DropKeepsSortKeys(t: Table, i: int)
    requires WellFormed(t) && 0 <= i < |t.rows|
    ensures |DropGeometry(t).rows| == |t.rows|
    ensures Cell(DropGeometry(t).rows[i], GridIdColumn) == Cell(t.rows[i], GridIdColumn)
    ensures Cell(DropGeometry(t).rows[i], PostcodeColumn) == Cell(t.rows[i], PostcodeColumn)
  {
  }

  /** `prepare_export_table`. Sorting looks up `matched_grid_id`, then
      `postcode`, and raises `KeyError` for the first one the table lacks.
      Otherwise the result has the geometry-free columns and the same rows,
      as a permutation, in sort order. */
  function PrepareExportTable(t: Table): (r: Result<Table, Error>)
    requires WellFormed(t) && AllSortKeys(t.rows)
    ensures r.Err? <==> GridIdColumn !in t.columns || PostcodeColumn !in t.columns
    ensures r.Err? ==> r.error == KeyError(if GridIdColumn !in t.columns then GridIdColumn else PostcodeColumn)
    ensures r.Ok? ==>
              && r.value.columns == DropGeometry(t).columns
              && GeometryColumn !in r.value.columns
              && WellFormed(r.value)
              && multiset(r.value.rows) == multiset(DropGeometry(t).rows)
              && AllSortKeys(r.value.rows) && Sorted(r.value.rows)
  {
    var df := DropGeometry(t);
    if GridIdColumn !in df.columns then Err(KeyError(GridIdColumn))
    else if PostcodeColumn !in df.columns then Err(KeyError(PostcodeColumn))
    else
      assert AllSortKeys(df.rows) by {
        forall i | 0 <= i < |df.rows|
          ensures SortKeysPresent(df.rows[i])
        {
          DropKeepsSortKeys(t, i);
        }
      }
      var rows := SortRows(df.rows);
      assert WellFormed(Table(df.columns, rows)) by {
        forall i | 0 <= i < |rows|
          ensures rows[i].Keys == set c | c in df.columns
        {
          assert rows[i] in multiset(df.rows);
          var k :| 0 <= k < |df.rows| && df.rows[k] == rows[i];
        }
      }
      Ok(Table(df.columns, rows))
  }

  /** Preparing an already prepared table gives it back unchanged. */
  lemma PrepareIdempotent(t: Table)
    requires WellFormed(t) && AllSortKeys(t.rows)
    requires PrepareExportTable(t).Ok?
    ensures PrepareExportTable(PrepareExportTable(t).value) == PrepareExportTable(t)
  {
    var u := PrepareExportTable(t).value;
    assert DropGeometry(u) == u;
    SortSortedIsIdentity(u.rows);
  }

  /** The rows of the export unit test, with their keys `(G1, A)`,
      `(G2, C)`, `(G1, B)`, come out as the first, third and second. */
  lemma SortThree(rows: seq<Row>)
    requires |rows| == 3
    requires Cell(rows[0], GridIdColumn) == Text("G1") && Cell(rows[0], PostcodeColumn) == Text("A")
    requires Cell(rows[1], GridIdColumn) == Text("G2") && Cell(rows[1], PostcodeColumn) == Text("C")
    requires Cell(rows[2], GridIdColumn) == Text("G1") && Cell(rows[2], PostcodeColumn) == Text("B")
    ensures AllSortKeys(rows)
    ensures var r := SortRows(rows); |r| == 3 && r[0] == rows[0] && r[1] == rows[2] && r[2] == rows[1]
  {
    assert !StrLe("G2", "G1") by {
      assert "G2"[1..] == "2" && "G1"[1..] == "1";
    }
    assert StrLe("A", "B");
    assert StrLe("G1", "G2");
    SortThreeOrdered(rows);
  }

  /** Three rows ordered first, third, second are sorted into that order. */
  lemma SortThreeOrdered(rows: seq<Row>)
    requires |rows| == 3 && AllSortKeys(rows)
    requires RowLe(rows[0], rows[2]) && RowLe(rows[2], rows[1]) && !RowLe(rows[1], rows[2])
    ensures var r := SortRows(rows); |r| == 3 && r[0] == rows[0] && r[1] == rows[2] && r[2] == rows[1]
  {
    var tail := rows[1..];
    assert tail[0] == rows[1] && tail[1] == rows[2];
    SortTwoSwapped(tail);
    SortCons(rows);
    InsertFront(rows[0], SortRows(tail));
  }

  lemma SortTwoSwapped(rows: seq<Row>)
    requires |rows| == 2 && AllSortKeys(rows)
    requires !RowLe(rows[0], rows[1])
    ensures var r := SortRows(rows); |r| == 2 && r[0] == rows[1] && r[1] == rows[0]
  {
    var tail := rows[1..];
    assert tail[0] == rows[1];
    SortOne(tail);
    SortCons(rows);
    InsertPast(rows[0], SortRows(tail));
    assert SortRows(tail)[1..] == [];
  }

  lemma SortOne(rows: seq<Row>)
    requires |rows| == 1 && AllSortKeys(rows)
    ensures SortRows(rows) == rows
  {
    SortCons(rows);
    assert rows[1..] == [];
  }

  lemma SortCons(rows: seq<Row>)
    requires AllSortKeys(rows) && rows != []
    ensures AllSortKeys(rows[1..])
    ensures SortRows(rows) == Insert(rows[0], SortRows(rows[1..]))
  {
  }

  lemma InsertFront(x: Row, s: seq<Row>)
    requires SortKeysPresent(x) && AllSortKeys(s) && Sorted(s) && s != []
    requires RowLe(x, s[0])
    ensures Insert(x, s) == [x] + s
  {
  }

  lemma InsertPast(x: Row, s: seq<Row>)
    requires SortKeysPresent(x) && AllSortKeys(s) && Sorted(s) && s != []
    requires !RowLe(x, s[0])
    ensures AllSortKeys(s[1..]) && Sorted(s[1..])
    ensures Insert(x, s) == [s[0]] + Insert(x, s[1..])
  {
    SortedTail(s);
  }

  lemma PrepareSorts(t: Table)
    requires WellFormed(t) && AllSortKeys(t.rows)
    requires GridIdColumn in t.columns && PostcodeColumn in t.columns
    ensures AllSortKeys(DropGeometry(t).rows)
    ensures PrepareExportTable(t) == Ok(Table(DropGeometry(t).columns, SortRows(DropGeometry(t).rows)))
  {
  }

  /** Any table with the three keyed rows of the export unit test sorts
      them to ids `G1, G1, G2` and postcodes `A, B, C`. */
  lemma ExportOfThreeRows(t: Table)
    requires WellFormed(t) && AllSortKeys(t.rows) && |t.rows| == 3
    requires GridIdColumn in t.columns && PostcodeColumn in t.columns
    requires Cell(t.rows[0], GridIdColumn) == Text("G1") && Cell(t.rows[0], PostcodeColumn) == Text("A")
    requires Cell(t.rows[1], GridIdColumn) == Text("G2") && Cell(t.rows[1], PostcodeColumn) == Text("C")
    requires Cell(t.rows[2], GridIdColumn) == Text("G1") && Cell(t.rows[2], PostcodeColumn) == Text("B")
    ensures var r := PrepareExportTable(t);
            && r.Ok?
            && GeometryColumn !in r.value.columns
            && |r.value.rows| == 3
            && [Cell(r.value.rows[0], GridIdColumn), Cell(r.value.rows[1], GridIdColumn),
                Cell(r.value.rows[2], GridIdColumn)] == [Text("G1"), Text("G1"), Text("G2")]
            && [Cell(r.value.rows[0], PostcodeColumn), Cell(r.value.rows[1], PostcodeColumn),
                Cell(r.value.rows[2], PostcodeColumn)] == [Text("A"), Text("B"), Text("C")]
  {
    var d := DropGeometry(t);
    DropKeepsSortKeys(t, 0);
    DropKeepsSortKeys(t, 1);
    DropKeepsSortKeys(t, 2);
    SortThree(d.rows);
    PrepareSorts(t);
  }

  // ---------------------------------------------------------------------------
  // The `.xlsx` suffix rule of `export_to_excel`
  // ---------------------------------------------------------------------------

  const XlsxSuffix: string := ".xlsx"

  /** The file name written to: `.xlsx` is appended unless the name already
      ends in it, compared without regard to case. */
  function EnsureXlsxSuffix(path: string): (r: string)
    ensures EndsWith(Lower(r), XlsxSuffix)
    ensures |path| <= |r| && r[..|path|] == path
    ensures r == path <==> EndsWith(Lower(path), XlsxSuffix)
    ensures r != path ==> r[|path|..] == XlsxSuffix
  {
    if EndsWith(Lower(path), XlsxSuffix) then path
    else
      var r := path + XlsxSuffix;
      LowerAppend(path, XlsxSuffix);
      LowerOfLowercase(XlsxSuffix);
      assert Lower(r)[|Lower(r)| - |XlsxSuffix|..] == XlsxSuffix;
      r
  }

  lemma EnsureXlsxSuffixIdempotent(path: string)
    ensures EnsureXlsxSuffix(EnsureXlsxSuffix(path)) == EnsureXlsxSuffix(path)
  {
  }

  /** A name ending in `.XLSX` is kept as it is. */
  lemma UpperCaseSuffixKept()
    ensures EnsureXlsxSuffix("grid.XLSX") == "grid.XLSX"
  {
    assert Lower("grid.XLSX") == "grid.xlsx";
  }

  /** Any other name gets the suffix. */
  lemma MissingSuffixAppended()
    ensures EnsureXlsxSuffix("results") == "results.xlsx"
  {
    assert Lower("results") == "results";
  }
}
