/** The spatial match: a left spatial join of postcode points against grid
    cells with the `within` predicate, and the summary statistics of the
    joined table. */
module Matcher {
  import opened Common
  import opened Geometry
  import opened Tables
  import opened Models

  /** One row of the joined table. `matchedGridId` is `None` when no cell
      contains the point. */
  datatype MatchRow = MatchRow(
    postcode: string, easting: real, northing: real, matchedGridId: Option<string>, geometry: Point)

  /** The columns of the joined table, in order. */
  const MatchColumns: seq<string> := ["postcode", "easting", "northing", "matched_grid_id", "geometry"]

  const MatchedIdColumn: string := "matched_grid_id"

  /** No two cells' interiors overlap. */
  predicate DisjointCells(cells: seq<GridCell>)
  {
    forall i, j :: 0 <= i < j < |cells| ==> InteriorsDisjoint(cells[i].geometry, cells[j].geometry)
  }

  /** Some cell contains the point. */
  predicate Covered(q: Point, cells: seq<GridCell>)
  {
    exists c :: c in cells && Within(q, c.geometry)
  }

  /** The cell test of the `within` join for point `q`. */
  function Contains(q: Point): GridCell -> bool
  {
    (c: GridCell) => Within(q, c.geometry)
  }

  /** The cells whose interior holds the point: exactly the containing cells,
      in cell order; empty exactly when no cell contains the point. */
  function Hits(q: Point, cells: seq<GridCell>): (hits: seq<GridCell>)
    ensures hits == Filter(cells, Contains(q))
    ensures hits == [] <==> !Covered(q, cells)
  {
    if cells == [] then []
    else
      var rest := Hits(q, cells[1..]);
      assert forall c :: c in cells <==> c == cells[0] || c in cells[1..];
      (if Within(q, cells[0].geometry) then [cells[0]] else []) + rest
  }

  /** The row carries the point's own postcode, coordinates and geometry. */
  predicate FromPoint(r: MatchRow, p: PostcodePoint)
  {
    r.postcode == p.postcode && r.easting == p.easting && r.northing == p.northing && r.geometry == p.geometry
  }

  /** A matched id names a cell that contains the row's point; an unmatched
      row's point lies within no cell. */
  predicate Justified(r: MatchRow, cells: seq<GridCell>)
  {
    match r.matchedGridId
    case Some(id) => exists c :: c in cells && c.id == id && Within(r.geometry, c.geometry)
    case None => forall c :: c in cells ==> !Within(r.geometry, c.geometry)
  }

  /** The join rows of one point: one per containing cell, in cell order, or
      a single unmatched row when there is none. */
  function JoinPoint(p: PostcodePoint, cells: seq<GridCell>): (rows: seq<MatchRow>)
    ensures |rows| >= 1
    ensures forall k :: 0 <= k < |rows| ==> FromPoint(rows[k], p) && Justified(rows[k], cells)
    ensures Hits(p.geometry, cells) == [] <==> rows[0].matchedGridId.None?
    ensures Hits(p.geometry, cells) == [] ==> |rows| == 1
    ensures Hits(p.geometry, cells) != [] ==>
              |rows| == |Hits(p.geometry, cells)| &&
              forall k :: 0 <= k < |rows| ==> rows[k].matchedGridId == Some(Hits(p.geometry, cells)[k].id)
  {
    var hits := Hits(p.geometry, cells);
    if hits == [] then
      [MatchRow(p.postcode, p.easting, p.northing, None, p.geometry)]
    else
      HitRows(p, hits, cells)
  }

  /** One matched row per containing cell. */
  function HitRows(p: PostcodePoint, hits: seq<GridCell>, cells: seq<GridCell>): (rows: seq<MatchRow>)
    requires forall c :: c in hits ==> c in cells && Within(p.geometry, c.geometry)
    ensures |rows| == |hits|
    ensures forall k :: 0 <= k < |rows| ==>
              FromPoint(rows[k], p) && rows[k].matchedGridId == Some(hits[k].id) && Justified(rows[k], cells)
  {
    var rows := seq(|hits|, k requires 0 <= k < |hits| =>
                      MatchRow(p.postcode, p.easting, p.northing, Some(hits[k].id), p.geometry));
    assert forall k :: 0 <= k < |hits| ==> hits[k] in hits;
    rows
  }

  /** For each join row, the index of the point it comes from: the rows of
      the first point, then those of the rest. */
  function Origins(points: seq<PostcodePoint>, cells: seq<GridCell>): (o: seq<int>)
    decreases |points|
  {
    if points == [] then []
    else
      Zeros(|JoinPoint(points[0], cells)|) + Shift(Origins(points[1..], cells))
  }

  function Zeros(n: nat): (z: seq<int>)
    ensures |z| == n && forall k :: 0 <= k < n ==> z[k] == 0
  {
    seq(n, _ => 0)
  }

  /** Every index moved one point on. */
  function Shift(o: seq<int>): (r: seq<int>)
    ensures |r| == |o| && forall k :: 0 <= k < |o| ==> r[k] == o[k] + 1
  {
    seq(|o|, k requires 0 <= k < |o| => o[k] + 1)
  }

  /** Some row comes from point `i`. */
  predicate HasOrigin(o: seq<int>, i: int)
  {
    exists k :: 0 <= k < |o| && o[k] == i
  }

  /** `rows` is a left join of `points` with origin indices `o`: each row
      copies its point and is justified by the cells, origins never go
      back, and every point has at least one row. */
  predicate LeftJoinOf(rows: seq<MatchRow>, o: seq<int>, points: seq<PostcodePoint>, cells: seq<GridCell>)
  {
    && |o| == |rows|
    && (forall k :: 0 <= k < |rows| ==>
          0 <= o[k] < |points| && FromPoint(rows[k], points[o[k]]) && Justified(rows[k], cells))
    && (forall k, k' :: 0 <= k <= k' < |o| ==> o[k] <= o[k'])
    && (forall i :: 0 <= i < |points| ==> HasOrigin(o, i))
  }

  lemma LeftJoinCons(head: seq<MatchRow>, tail: seq<MatchRow>, ot: seq<int>,
                     points: seq<PostcodePoint>, cells: seq<GridCell>)
    requires points != [] && head != []
    requires forall k :: 0 <= k < |head| ==> FromPoint(head[k], points[0]) && Justified(head[k], cells)
    requires LeftJoinOf(tail, ot, points[1..], cells)
    ensures LeftJoinOf(head + tail, Zeros(|head|) + Shift(ot), points, cells)
  {
    ConsRowsFromPoints(head, tail, ot, points, cells);
    ConsOriginsOrdered(|head|, ot);
    ConsOriginsCover(|head|, ot, |points|);
  }

  lemma ConsRowsFromPoints(head: seq<MatchRow>, tail: seq<MatchRow>, ot: seq<int>,
                           points: seq<PostcodePoint>, cells: seq<GridCell>)
    requires points != []
    requires forall k :: 0 <= k < |head| ==> FromPoint(head[k], points[0]) && Justified(head[k], cells)
    requires LeftJoinOf(tail, ot, points[1..], cells)
    ensures var rows, o := head + tail, Zeros(|head|) + Shift(ot);
            forall k :: 0 <= k < |rows| ==>
              0 <= o[k] < |points| && FromPoint(rows[k], points[o[k]]) && Justified(rows[k], cells)
  {
    var rows := head + tail;
    var o := Zeros(|head|) + Shift(ot);
    var h := |head|;
    forall k | 0 <= k < |rows|
      ensures 0 <= o[k] < |points| && FromPoint(rows[k], points[o[k]]) && Justified(rows[k], cells)
    {
      if k < h {
        assert rows[k] == head[k] && o[k] == 0;
      } else {
        assert rows[k] == tail[k - h] && o[k] == ot[k - h] + 1;
        assert points[1..][ot[k - h]] == points[ot[k - h] + 1];
      }
    }
  }

  lemma ConsOriginsOrdered(h: nat, ot: seq<int>)
    requires forall k :: 0 <= k < |ot| ==> 0 <= ot[k]
    requires forall k, k' :: 0 <= k <= k' < |ot| ==> ot[k] <= ot[k']
    ensures var o := Zeros(h) + Shift(ot);
            forall k, k' :: 0 <= k <= k' < |o| ==> o[k] <= o[k']
  {
    var o := Zeros(h) + Shift(ot);
    forall k, k' | 0 <= k <= k' < |o|
      ensures o[k] <= o[k']
    {
      if k >= h {
        assert o[k] == ot[k - h] + 1 && o[k'] == ot[k' - h] + 1;
      } else if k' >= h {
        assert o[k'] == ot[k' - h] + 1;
      }
    }
  }

  lemma ConsOriginsCover(h: nat, ot: seq<int>, n: nat)
    requires h > 0
    requires forall i :: 0 <= i < n - 1 ==> HasOrigin(ot, i)
    ensures forall i :: 0 <= i < n ==> HasOrigin(Zeros(h) + Shift(ot), i)
  {
    var o := Zeros(h) + Shift(ot);
    forall i | 0 <= i < n
      ensures HasOrigin(o, i)
    {
      if i == 0 {
        assert o[0] == 0;
      } else {
        assert HasOrigin(ot, i - 1);
        var k :| 0 <= k < |ot| && ot[k] == i - 1;
        assert o[h + k] == i;
      }
    }
  }

  /** The rows whose origin index is `i`, in order. */
  function RowsOf(rows: seq<MatchRow>, o: seq<int>, i: int): seq<MatchRow>
    requires |o| == |rows|
    decreases |rows|
  {
    if rows == [] then []
    else (if o[0] == i then [rows[0]] else []) + RowsOf(rows[1..], o[1..], i)
  }

  /** Point by point, the rows coming from point `i` are exactly its own
      join rows, in order. */
  predicate JoinBlocks(rows: seq<MatchRow>, o: seq<int>, points: seq<PostcodePoint>, cells: seq<GridCell>)
  {
    |o| == |rows| && forall i :: 0 <= i < |points| ==> RowsOf(rows, o, i) == JoinPoint(points[i], cells)
  }

  lemma {:induction false} RowsOfAppend(a: seq<MatchRow>, b: seq<MatchRow>, oa: seq<int>, ob: seq<int>, i: int)
    requires |oa| == |a| && |ob| == |b|
    ensures RowsOf(a + b, oa + ob, i) == RowsOf(a, oa, i) + RowsOf(b, ob, i)
    decreases |a|
  {
    if a == [] {
      assert a + b == b && oa + ob == ob;
    } else {
      assert (a + b)[1..] == a[1..] + b && (oa + ob)[1..] == oa[1..] + ob;
      assert (a + b)[0] == a[0] && (oa + ob)[0] == oa[0];
      RowsOfAppend(a[1..], b, oa[1..], ob, i);
      var front := if oa[0] == i then [a[0]] else [];
      ConcatAssoc(front, RowsOf(a[1..], oa[1..], i), RowsOf(b, ob, i));
    }
  }

  lemma {:induction false} RowsOfZeros(head: seq<MatchRow>, i: int)
    ensures RowsOf(head, Zeros(|head|), i) == if i == 0 then head else []
    decreases |head|
  {
    if head != [] {
      assert Zeros(|head|)[1..] == Zeros(|head| - 1);
      RowsOfZeros(head[1..], i);
      assert head == [head[0]] + head[1..];
    }
  }

  lemma {:induction false} RowsOfShift(rows: seq<MatchRow>, o: seq<int>, i: int)
    requires |o| == |rows|
    ensures RowsOf(rows, Shift(o), i) == RowsOf(rows, o, i - 1)
    decreases |rows|
  {
    if rows != [] {
      assert Shift(o)[1..] == Shift(o[1..]);
      RowsOfShift(rows[1..], o[1..], i);
    }
  }

  lemma {:induction false} RowsOfAbsent(rows: seq<MatchRow>, o: seq<int>, i: int)
    requires |o| == |rows|
    requires forall k :: 0 <= k < |o| ==> o[k] != i
    ensures RowsOf(rows, o, i) == []
    decreases |rows|
  {
    if rows != [] {
      assert o[0] != i;
      RowsOfAbsent(rows[1..], o[1..], i);
    }
  }

  lemma JoinBlocksCons(tail: seq<MatchRow>, ot: seq<int>, points: seq<PostcodePoint>, cells: seq<GridCell>)
    requires points != []
    requires LeftJoinOf(tail, ot, points[1..], cells)
    requires JoinBlocks(tail, ot, points[1..], cells)
    ensures var head := JoinPoint(points[0], cells);
            JoinBlocks(head + tail, Zeros(|head|) + Shift(ot), points, cells)
  {
    var head := JoinPoint(points[0], cells);
    forall i | 0 <= i < |points|
      ensures RowsOf(head + tail, Zeros(|head|) + Shift(ot), i) == JoinPoint(points[i], cells)
    {
      RowsOfAppend(head, tail, Zeros(|head|), Shift(ot), i);
      RowsOfZeros(head, i);
      RowsOfShift(tail, ot, i);
      if i == 0 {
        RowsOfAbsent(tail, ot, -1);
      } else {
        assert points[1..][i - 1] == points[i];
      }
    }
  }

  /** `match_postcodes_to_grid`, a left join: every point keeps at least one
      row, the rows come point by point in input order (their origin indices
      never go back), each row copies its point, and each row is justified by
      the cells. */
  function MatchPostcodesToGrid(points: seq<PostcodePoint>, cells: seq<GridCell>): (rows: seq<MatchRow>)
    ensures |rows| >= |points|
    ensures LeftJoinOf(rows, Origins(points, cells), points, cells)
    ensures JoinBlocks(rows, Origins(points, cells), points, cells)
    decreases |points|
  {
    if points == [] then []
    else
      var head := JoinPoint(points[0], cells);
      var tail := MatchPostcodesToGrid(points[1..], cells);
      LeftJoinCons(head, tail, Origins(points[1..], cells), points, cells);
      JoinBlocksCons(tail, Origins(points[1..], cells), points, cells);
      head + tail
  }

  /** With disjoint cell interiors a point lies within at most one cell. */
  lemma {:induction false} AtMostOneHit(q: Point, cells: seq<GridCell>)
    requires DisjointCells(cells)
    ensures |Hits(q, cells)| <= 1
    decreases |cells|
  {
    if cells != [] {
      var rest := cells[1..];
      assert DisjointCells(rest) by {
        forall i, j | 0 <= i < j < |rest|
          ensures InteriorsDisjoint(rest[i].geometry, rest[j].geometry)
        {
          assert rest[i] == cells[i + 1] && rest[j] == cells[j + 1];
        }
      }
      AtMostOneHit(q, rest);
      assert Hits(q, cells) == (if Within(q, cells[0].geometry) then [cells[0]] else []) + Hits(q, rest);
      if Within(q, cells[0].geometry) {
        forall c | c in rest
          ensures !Within(q, c.geometry)
        {
          var j :| 0 <= j < |rest| && rest[j] == c;
          assert cells[j + 1] == c;
          DisjointBoxesShareNoPoint(q, cells[0].geometry, c.geometry);
        }
        assert !Covered(q, rest);
      }
    }
  }

  /** A point within at most one cell has a single join row, matched
      exactly when some cell contains the point. */
  lemma SingleJoinRow(p: PostcodePoint, cells: seq<GridCell>)
    requires |Hits(p.geometry, cells)| <= 1
    ensures var rows := JoinPoint(p, cells);
            && |rows| == 1 && FromPoint(rows[0], p)
            && (rows[0].matchedGridId.Some? <==> Covered(p.geometry, cells))
  {
    var rows := JoinPoint(p, cells);
    assert Justified(rows[0], cells);
  }

  /** The join starts with the rows of the first point. */
  lemma MatchCons(points: seq<PostcodePoint>, cells: seq<GridCell>)
    requires points != []
    ensures MatchPostcodesToGrid(points, cells) ==
            JoinPoint(points[0], cells) + MatchPostcodesToGrid(points[1..], cells)
  {
  }

  /** One row per point, in order, matched exactly when some cell contains
      the point. */
  predicate OneRowEach(rows: seq<MatchRow>, points: seq<PostcodePoint>, cells: seq<GridCell>)
  {
    && |rows| == |points|
    && forall i :: 0 <= i < |points| ==>
         && FromPoint(rows[i], points[i])
         && (rows[i].matchedGridId.Some? <==> Covered(points[i].geometry, cells))
  }

  lemma OneRowEachCons(r: MatchRow, tail: seq<MatchRow>, points: seq<PostcodePoint>, cells: seq<GridCell>)
    requires points != []
    requires FromPoint(r, points[0]) && (r.matchedGridId.Some? <==> Covered(points[0].geometry, cells))
    requires OneRowEach(tail, points[1..], cells)
    ensures OneRowEach([r] + tail, points, cells)
  {
    var rows := [r] + tail;
    forall i | 1 <= i < |points|
      ensures FromPoint(rows[i], points[i])
      ensures rows[i].matchedGridId.Some? <==> Covered(points[i].geometry, cells)
    {
      assert rows[i] == tail[i - 1] && points[i] == points[1..][i - 1];
    }
  }

  /** With disjoint cell interiors the left join keeps one row per point,
      in order, matched exactly when some cell contains the point. */
  lemma {:induction false} OneRowPerPoint(points: seq<PostcodePoint>, cells: seq<GridCell>)
    requires DisjointCells(cells)
    ensures OneRowEach(MatchPostcodesToGrid(points, cells), points, cells)
    decreases |points|
  {
    if points != [] {
      var head := JoinPoint(points[0], cells);
      var tail := MatchPostcodesToGrid(points[1..], cells);
      MatchCons(points, cells);
      AtMostOneHit(points[0].geometry, cells);
      SingleJoinRow(points[0], cells);
      OneRowPerPoint(points[1..], cells);
      assert head == [head[0]];
      OneRowEachCons(head[0], tail, points, cells);
    }
  }

  /** When every point lies within the one cell, every row is matched to
      that cell and there is one row per point. */
  lemma AllInsideOneCell(points: seq<PostcodePoint>, c: GridCell)
    requires forall i :: 0 <= i < |points| ==> Within(points[i].geometry, c.geometry)
    ensures var rows := MatchPostcodesToGrid(points, [c]);
            && |rows| == |points|
            && forall k :: 0 <= k < |rows| ==> FromPoint(rows[k], points[k]) && rows[k].matchedGridId == Some(c.id)
  {
    assert DisjointCells([c]);
    OneRowPerPoint(points, [c]);
    var rows := MatchPostcodesToGrid(points, [c]);
    forall k | 0 <= k < |rows|
      ensures rows[k].matchedGridId == Some(c.id)
    {
      assert c in [c];
      assert Covered(points[k].geometry, [c]);
      RowJustified(points, [c], k);
      OnlyCellId(rows[k], c);
    }
  }

  /** Every row of the join is justified by the cells. */
  lemma RowJustified(points: seq<PostcodePoint>, cells: seq<GridCell>, k: int)
    requires 0 <= k < |MatchPostcodesToGrid(points, cells)|
    ensures Justified(MatchPostcodesToGrid(points, cells)[k], cells)
  {
  }

  /** A matched row justified by a single cell names that cell. */
  lemma OnlyCellId(r: MatchRow, c: GridCell)
    requires r.matchedGridId.Some? && Justified(r, [c])
    ensures r.matchedGridId == Some(c.id)
  {
    var c' :| c' in [c] && c'.id == r.matchedGridId.value && Within(r.geometry, c'.geometry);
    assert c' == c;
  }

  /** A point within the only cell yields one row, matched to it. */
  lemma SingleMatch(p: PostcodePoint, c: GridCell)
    requires Within(p.geometry, c.geometry)
    ensures MatchPostcodesToGrid([p], [c]) == [MatchRow(p.postcode, p.easting, p.northing, Some(c.id), p.geometry)]
  {
    var cells := [c];
    assert cells[1..] == [];
    assert Hits(p.geometry, cells) == cells;
    assert MatchPostcodesToGrid([p], cells) == JoinPoint(p, cells) + MatchPostcodesToGrid([], cells);
  }

  /** Overlapping cells duplicate the point: a point inside two cells gets
      one row for each, in cell order. */
  lemma OverlapDuplicates(p: PostcodePoint, c1: GridCell, c2: GridCell)
    requires Within(p.geometry, c1.geometry) && Within(p.geometry, c2.geometry)
    ensures var rows := MatchPostcodesToGrid([p], [c1, c2]);
            rows == [MatchRow(p.postcode, p.easting, p.northing, Some(c1.id), p.geometry),
                     MatchRow(p.postcode, p.easting, p.northing, Some(c2.id), p.geometry)]
  {
    var cells := [c1, c2];
    assert cells[1..] == [c2] && [c2][1..] == [];
    assert Hits(p.geometry, cells) == cells;
    assert MatchPostcodesToGrid([p], cells) == JoinPoint(p, cells) + MatchPostcodesToGrid([], cells);
  }

  // ---------------------------------------------------------------------------
  // The joined table and its summary
  // ---------------------------------------------------------------------------

  function IdValue(id: Option<string>): Value
  {
    match id
    case Some(s) => Text(s)
    case None => Missing
  }

  function MatchRowToRow(r: MatchRow): Row
  {
    map["postcode" := Text(r.postcode), "easting" := Real(r.easting), "northing" := Real(r.northing),
        MatchedIdColumn := IdValue(r.matchedGridId), "geometry" := Geom(r.geometry)]
  }

  /** The join rows as the returned data frame: the five columns, in order,
      one table row per join row, a missing id for an unmatched row. */
  function MatchTable(rows: seq<MatchRow>): (t: Table)
    ensures t.columns == MatchColumns && |t.rows| == |rows| && WellFormed(t)
    ensures forall k :: 0 <= k < |rows| ==>
              (IsNa(Cell(t.rows[k], MatchedIdColumn)) <==> rows[k].matchedGridId.None?)
    ensures forall k :: 0 <= k < |rows| ==>
              && Cell(t.rows[k], "postcode") == Text(rows[k].postcode)
              && Cell(t.rows[k], "easting") == Real(rows[k].easting)
              && Cell(t.rows[k], "northing") == Real(rows[k].northing)
              && (rows[k].matchedGridId.Some? ==>
                    Cell(t.rows[k], MatchedIdColumn) == Text(rows[k].matchedGridId.value))
              && Cell(t.rows[k], "geometry") == Geom(rows[k].geometry)
  {
    var t := Table(MatchColumns, seq(|rows|, k requires 0 <= k < |rows| => MatchRowToRow(rows[k])));
    assert (set c | c in MatchColumns) == {"postcode", "easting", "northing", MatchedIdColumn, "geometry"};
    t
  }

  datatype Summary = Summary(totalPostcodes: nat, matched: nat, unmatched: int, matchRate: real)

  predicate HasMatchedId(row: Row)
  {
    !IsNa(Cell(row, MatchedIdColumn))
  }

  lemma RatioBounds(m: real, n: real)
    requires 0.0 <= m <= n && 0.0 < n
    ensures 0.0 <= m / n <= 1.0 && (m / n) * n == m
    ensures m / n == 1.0 <==> m == n
    ensures m / n == 0.0 <==> m == 0.0
  {
  }

  /** `matched / total` as an exact ratio: in [0, 1], and it multiplies
      back to `matched`. */
  function Rate(matched: nat, total: nat): (q: real)
    requires 0 < total && matched <= total
    ensures 0.0 <= q <= 1.0
    ensures q * total as real == matched as real
    ensures q == 1.0 <==> matched == total
    ensures q == 0.0 <==> matched == 0
  {
    var m, n := matched as real, total as real;
    RatioBounds(m, n);
    m / n
  }

  /** The number of rows whose id is present (`notna().sum()`). */
  function CountMatched(rows: seq<Row>): (n: nat)
    ensures n <= |rows|
  {
    if rows == [] then 0
    else (if HasMatchedId(rows[0]) then 1 else 0) + CountMatched(rows[1..])
  }

  /** The count is the number of rows that pass the `notna` mask. */
  lemma {:induction false} CountMatchedIsMask(rows: seq<Row>)
    ensures CountMatched(rows) == |Filter(rows, HasMatchedId)|
    decreases |rows|
  {
    if rows != [] {
      CountMatchedIsMask(rows[1..]);
      assert Filter(rows, HasMatchedId) ==
             (if HasMatchedId(rows[0]) then [rows[0]] else []) + Filter(rows[1..], HasMatchedId);
    }
  }

  /** All rows are counted exactly when every row has an id; none exactly
      when no row has one. */
  lemma {:induction false} CountMatchedExtremes(rows: seq<Row>)
    ensures CountMatched(rows) == |rows| <==> forall row :: row in rows ==> HasMatchedId(row)
    ensures CountMatched(rows) == 0 <==> forall row :: row in rows ==> !HasMatchedId(row)
    decreases |rows|
  {
    if rows != [] {
      CountMatchedExtremes(rows[1..]);
      assert forall x :: x in rows <==> x == rows[0] || x in rows[1..];
    }
  }

  /** `summarize_matches`. Looking up the id column raises `KeyError` when
      the table lacks it. Otherwise `matched` counts the rows whose id is
      present, `unmatched` the rest, and the rate is their ratio (0 for an
      empty table). */
  function SummarizeMatches(t: Table): (r: Result<Summary, Error>)
    ensures r.Err? <==> MatchedIdColumn !in t.columns
    ensures r.Err? ==> r.error == KeyError(MatchedIdColumn)
    ensures r.Ok? ==>
              var s := r.value;
              && s.totalPostcodes == |t.rows|
              && s.matched == CountMatched(t.rows)
              && s.matched + s.unmatched == s.totalPostcodes
              && 0 <= s.unmatched
              && 0.0 <= s.matchRate <= 1.0
              && (s.totalPostcodes == 0 ==> s.matchRate == 0.0)
              && (s.totalPostcodes > 0 ==> s.matchRate * s.totalPostcodes as real == s.matched as real)
  {
    if MatchedIdColumn !in t.columns then Err(KeyError(MatchedIdColumn))
    else
      var total := |t.rows|;
      var matched := CountMatched(t.rows);
      var rate := if total > 0 then Rate(matched, total) else 0.0;
      Ok(Summary(total, matched, total - matched, rate))
  }

  /** Every row is matched exactly when the rate is 1; none is exactly when
      `matched` is 0. */
  lemma SummaryExtremes(t: Table)
    requires MatchedIdColumn in t.columns
    ensures var s := SummarizeMatches(t).value;
            && (s.unmatched == 0 <==> forall row :: row in t.rows ==> HasMatchedId(row))
            && (s.matched == 0 <==> forall row :: row in t.rows ==> !HasMatchedId(row))
            && (|t.rows| > 0 ==> (s.matchRate == 1.0 <==> s.unmatched == 0))
  {
    CountMatchedExtremes(t.rows);
  }

  /** The summary of a join counts exactly its matched rows. */
  lemma SummaryOfJoin(rows: seq<MatchRow>)
    ensures SummarizeMatches(MatchTable(rows)).Ok?
    ensures var s := SummarizeMatches(MatchTable(rows)).value;
            && s.totalPostcodes == |rows|
            && (s.unmatched == 0 <==> forall k :: 0 <= k < |rows| ==> rows[k].matchedGridId.Some?)
  {
    var t := MatchTable(rows);
    SummaryExtremes(t);
    assert forall row :: row in t.rows ==> exists k :: 0 <= k < |rows| && row == t.rows[k];
    assert forall k :: 0 <= k < |rows| ==> t.rows[k] in t.rows;
  }

  /** The number of join rows that carry an id. */
  function CountSome(rows: seq<MatchRow>): (n: nat)
    ensures n <= |rows|
  {
    if rows == [] then 0
    else (if rows[0].matchedGridId.Some? then 1 else 0) + CountSome(rows[1..])
  }

  /** Counting present ids in the returned table counts the matched join
      rows. */
  lemma {:induction false} MatchTableCount(rows: seq<MatchRow>)
    ensures CountMatched(MatchTable(rows).rows) == CountSome(rows)
    decreases |rows|
  {
    if rows != [] {
      MatchTableCount(rows[1..]);
      var t, t' := MatchTable(rows), MatchTable(rows[1..]);
      assert t.rows[1..] == t'.rows by {
        forall k | 0 <= k < |t'.rows|
          ensures t.rows[1..][k] == t'.rows[k]
        {
          assert t.rows[k + 1] == MatchRowToRow(rows[k + 1]);
        }
      }
    }
  }

  // ---------------------------------------------------------------------------
  // The unit tests of the matcher, as lemmas
  // ---------------------------------------------------------------------------

  /** The 1 km cell `A1` centred on the origin. */
  function CellA1(): (c: GridCell)
    ensures IsAxisBox(c.geometry) && BoxOf(c.geometry) == Bounds(-500.0, -500.0, 500.0, 500.0)
  {
    var b := Bounds(-500.0, -500.0, 500.0, 500.0);
    BoxPolygonBounds(b);
    GridCell("A1", 0.0, 0.0, Polygon([Point(-500.0, -500.0), Point(500.0, -500.0),
                                      Point(500.0, 500.0), Point(-500.0, 500.0)]))
  }

  /** A point at the centre of the cell is matched to it. */
  lemma CentreIsMatched()
    ensures var p := PostcodePoint("TEST1", 0.0, 0.0, Point(0.0, 0.0));
            MatchPostcodesToGrid([p], [CellA1()]) == [MatchRow("TEST1", 0.0, 0.0, Some("A1"), Point(0.0, 0.0))]
  {
    var p := PostcodePoint("TEST1", 0.0, 0.0, Point(0.0, 0.0));
    SingleMatch(p, CellA1());
  }

  /** A point on the cell's edge is not within it and stays unmatched. */
  lemma EdgeIsUnmatched()
    ensures var p := PostcodePoint("EDGE", 500.0, 0.0, Point(500.0, 0.0));
            MatchPostcodesToGrid([p], [CellA1()]) == [MatchRow("EDGE", 500.0, 0.0, None, Point(500.0, 0.0))]
  {
    var p := PostcodePoint("EDGE", 500.0, 0.0, Point(500.0, 0.0));
    var c := CellA1();
    OneRowPerPoint([p], [c]);
    assert !Covered(p.geometry, [c]);
  }

  /** The thousand points `PC0` .. `PC999` at `(i % 100, i % 100)`. */
  function ThousandPoints(): (ps: seq<PostcodePoint>)
    ensures |ps| == 1000
    ensures forall i :: 0 <= i < 1000 ==> Within(ps[i].geometry, CellA1().geometry)
  {
    seq(1000, i requires 0 <= i < 1000 =>
      var v := (i % 100) as real;
      PostcodePoint("PC" + Decimal.IntToString(i), v, v, Point(v, v)))
  }

  /** When every point lies within the one cell, the distinct matched ids
      are exactly that cell's id. */
  lemma OnlyIdIsTheCell(points: seq<PostcodePoint>, c: GridCell)
    requires |points| > 0
    requires forall i :: 0 <= i < |points| ==> Within(points[i].geometry, c.geometry)
    ensures var rows := MatchPostcodesToGrid(points, [c]);
            && (forall k :: 0 <= k < |rows| ==> rows[k].matchedGridId.Some?)
            && (set k | 0 <= k < |rows| :: rows[k].matchedGridId.value) == {c.id}
  {
    AllInsideOneCell(points, c);
    OneIdSet(MatchPostcodesToGrid(points, [c]), c.id);
  }

  lemma OneIdSet(rows: seq<MatchRow>, id: string)
    requires |rows| > 0
    requires forall k :: 0 <= k < |rows| ==> rows[k].matchedGridId == Some(id)
    ensures (set k | 0 <= k < |rows| :: rows[k].matchedGridId.value) == {id}
  {
    var ids := set k | 0 <= k < |rows| :: rows[k].matchedGridId.value;
    assert rows[0].matchedGridId.value in ids;
  }

  /** All thousand points fall in cell `A1`: one row each, every id present
      and equal to `A1`. */
  lemma ThousandPointsAllMatched()
    ensures var rows := MatchPostcodesToGrid(ThousandPoints(), [CellA1()]);
            && |rows| == 1000
            && (forall k :: 0 <= k < |rows| ==> rows[k].matchedGridId.Some?)
            && (set k | 0 <= k < |rows| :: rows[k].matchedGridId.value) == {"A1"}
  {
    AllInsideOneCell(ThousandPoints(), CellA1());
    OnlyIdIsTheCell(ThousandPoints(), CellA1());
  }

  /** The summary test: ids `X1`, none, `X2` give three postcodes, two
      matched, one unmatched, a rate of two thirds. */
  lemma SummaryExample()
    ensures var rows := [MatchRow("A", 1.0, 1.0, Some("X1"), Point(1.0, 1.0)),
                         MatchRow("B", 2.0, 2.0, None, Point(2.0, 2.0)),
                         MatchRow("C", 3.0, 3.0, Some("X2"), Point(3.0, 3.0))];
            SummarizeMatches(MatchTable(rows)) == Ok(Summary(3, 2, 1, 2.0 / 3.0))
  {
    var rows := [MatchRow("A", 1.0, 1.0, Some("X1"), Point(1.0, 1.0)),
                 MatchRow("B", 2.0, 2.0, None, Point(2.0, 2.0)),
                 MatchRow("C", 3.0, 3.0, Some("X2"), Point(3.0, 3.0))];
    MatchTableCount(rows);
    assert rows[1..][1..] == [rows[2]] && [rows[2]][1..] == [];
    assert CountSome(rows) == 2;
    var q := Rate(2, 3);
    assert q * 3.0 == 2.0;
  }
}
