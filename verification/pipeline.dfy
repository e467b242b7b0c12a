/** The stages put together as the application runs them: grid cells from
    the NOx grid table, the spatial match of postcode points against them,
    and the match summary. */
module Pipeline {
  import opened Common
  import Decimal
  import Config
  import opened Geometry
  import opened Tables
  import opened Models
  import opened GridBuilder
  import opened Matcher

  /** Any two grid centres lie at least one cell apart along some axis, as
      on a regular 1 km grid. */
  predicate CentresSeparated(rows: seq<Row>)
    requires CentresNumeric(rows)
  {
    forall i, j :: 0 <= i < j < |rows| ==>
      var x, y := AsReal(Cell(rows[i], "X")), AsReal(Cell(rows[i], "Y"));
      var x', y' := AsReal(Cell(rows[j], "X")), AsReal(Cell(rows[j], "Y"));
      x' - x >= 1000.0 || x - x' >= 1000.0 || y' - y >= 1000.0 || y - y' >= 1000.0
  }

  /** Each cell's polygon is the 1 km square around its recorded centre. */
  predicate CentredSquares(cells: seq<GridCell>)
  {
    forall k :: 0 <= k < |cells| ==> cells[k].geometry == CellPolygonFromCenter(cells[k].centerX, cells[k].centerY)
  }

  /** The point is less than half a cell from the cell's centre along both
      axes. */
  predicate NearCentre(q: Point, c: GridCell)
  {
    c.centerX - 500.0 < q.x < c.centerX + 500.0 && c.centerY - 500.0 < q.y < c.centerY + 500.0
  }

  /** The grid cells the application builds from a NOx table. */
  function CellsOf(t: Table, idColumn: Option<string>, showFloat: real -> string): (cells: seq<GridCell>)
    requires "X" in t.columns && "Y" in t.columns && CentresNumeric(t.rows)
    ensures |cells| == |t.rows| && CentredSquares(cells)
    ensures forall k :: 0 <= k < |cells| ==>
              cells[k].centerX == AsReal(Cell(t.rows[k], "X")) && cells[k].centerY == AsReal(Cell(t.rows[k], "Y"))
  {
    GridCellsFromFrame(BuildGridFrame(t).value, idColumn, showFloat)
  }

  /** Among centred squares, a point is covered exactly when it is near the
      centre of one of them. */
  lemma CoveredIffNearCentre(q: Point, cells: seq<GridCell>)
    requires CentredSquares(cells)
    ensures Covered(q, cells) <==> exists k :: 0 <= k < |cells| && NearCentre(q, cells[k])
  {
    if Covered(q, cells) {
      var c :| c in cells && Within(q, c.geometry);
      var k :| 0 <= k < |cells| && cells[k] == c;
      WithinIffNear(q, cells[k]);
    }
    if exists k :: 0 <= k < |cells| && NearCentre(q, cells[k]) {
      var k :| 0 <= k < |cells| && NearCentre(q, cells[k]);
      WithinIffNear(q, cells[k]);
      assert cells[k] in cells;
    }
  }

  lemma WithinIffNear(q: Point, c: GridCell)
    requires c.geometry == CellPolygonFromCenter(c.centerX, c.centerY)
    ensures Within(q, c.geometry) <==> NearCentre(q, c)
  {
    CellInterior(c.centerX, c.centerY, q);
  }

  /** Cells built from separated centres have disjoint interiors. */
  lemma SeparatedCentresGiveDisjointCells(t: Table, idColumn: Option<string>, showFloat: real -> string)
    requires "X" in t.columns && "Y" in t.columns && CentresNumeric(t.rows)
    requires CentresSeparated(t.rows)
    ensures DisjointCells(CellsOf(t, idColumn, showFloat))
  {
    var cells := CellsOf(t, idColumn, showFloat);
    forall i, j | 0 <= i < j < |cells|
      ensures InteriorsDisjoint(cells[i].geometry, cells[j].geometry)
    {
      SeparatedCellsAreDisjoint(cells[i].centerX, cells[i].centerY, cells[j].centerX, cells[j].centerY);
    }
  }

  /** On a regular grid every postcode point gets exactly one row, in input
      order, and it is matched exactly when the point lies strictly inside
      the 1 km square of some grid centre. */
  lemma GridMatchIsOneRowPerPoint(t: Table, idColumn: Option<string>, showFloat: real -> string,
                                  points: seq<PostcodePoint>)
    requires "X" in t.columns && "Y" in t.columns && CentresNumeric(t.rows)
    requires CentresSeparated(t.rows)
    ensures var cells := CellsOf(t, idColumn, showFloat);
            var rows := MatchPostcodesToGrid(points, cells);
            && |rows| == |points|
            && forall i :: 0 <= i < |points| ==>
                 && FromPoint(rows[i], points[i])
                 && (rows[i].matchedGridId.Some? <==>
                       exists k :: 0 <= k < |cells| && NearCentre(points[i].geometry, cells[k]))
  {
    var cells := CellsOf(t, idColumn, showFloat);
    SeparatedCentresGiveDisjointCells(t, idColumn, showFloat);
    OneRowPerPoint(points, cells);
    forall i | 0 <= i < |points|
      ensures Covered(points[i].geometry, cells) <==>
                exists k :: 0 <= k < |cells| && NearCentre(points[i].geometry, cells[k])
    {
      CoveredIffNearCentre(points[i].geometry, cells);
    }
  }

  // ---------------------------------------------------------------------------
  // One cell, one postcode, end to end
  // ---------------------------------------------------------------------------

  /** A NOx grid with the single centre (500000, 200000) and no id column. */
  function OneCellGrid(): (t: Table)
    ensures "X" in t.columns && "Y" in t.columns && CentresNumeric(t.rows) && |t.rows| == 1
    ensures !UsesIdColumn(t, Some(Config.DefaultGridIdColumn))
    ensures Cell(t.rows[0], "X") == Int(500000) && Cell(t.rows[0], "Y") == Int(200000)
  {
    Table(["X", "Y"], [map["X" := Int(500000), "Y" := Int(200000)]])
  }

  lemma FallbackIdOfCentre()
    ensures FallbackId(Int(500000), Int(200000)) == "500000_200000"
  {
    DigitThenZerosText(5);
    DigitThenZerosText(2);
    CentreIdText();
    FallbackIdIs(Int(500000), Int(200000), "500000", "200000", "500000_200000");
  }

  lemma CentreIdText()
    ensures "500000" + "_" + "200000" == "500000_200000"
  {
  }

  lemma FallbackIdIs(x: Value, y: Value, a: string, b: string, id: string)
    requires x.Int? && y.Int?
    requires Decimal.IntToString(x.i) == a && Decimal.IntToString(y.i) == b
    requires a + "_" + b == id
    ensures FallbackId(x, y) == id
  {
    FallbackIdText(x, y);
  }

  lemma DigitThenZerosText(d: nat)
    requires d == 2 || d == 5
    ensures Decimal.IntToString(d * 100000) == (if d == 2 then "200000" else "500000")
  {
    DigitThenZeros(d);
  }

  /** `str(d * 100000)` is the digit followed by five zeros. */
  lemma DigitThenZeros(d: nat)
    requires 1 <= d <= 9
    ensures Decimal.IntToString(d * 100000) == [Decimal.DigitChar(d)] + "00000"
  {
    var z := Decimal.DigitChar(0);
    assert Decimal.NatToString(d) == [Decimal.DigitChar(d)];
    Decimal.NatToStringSnoc(d * 10);
    Decimal.NatToStringSnoc(d * 100);
    Decimal.NatToStringSnoc(d * 1000);
    Decimal.NatToStringSnoc(d * 10000);
    Decimal.NatToStringSnoc(d * 100000);
    assert z == '0';
  }

  /** The grid's one cell gets the fallback id `500000_200000`, its centre,
      and the 1 km square around it. */
  lemma OneCellGridCells(showFloat: real -> string)
    ensures CellsOf(OneCellGrid(), Some(Config.DefaultGridIdColumn), showFloat)
              == [GridCell("500000_200000", 500000.0, 200000.0, CellPolygonFromCenter(500000.0, 200000.0))]
  {
    var t := OneCellGrid();
    var g := BuildGridFrame(t).value;
    assert g.polygons[0] == CellPolygonFromCenter(500000.0, 200000.0);
    var cells := GridCellsFromFrame(g, Some(Config.DefaultGridIdColumn), showFloat);
    OneCellId(g.polygons[0], showFloat);
  }

  /** Without a `GridCode` column the one row's id is the fallback id. */
  lemma OneCellId(polygon: Polygon, showFloat: real -> string)
    ensures var t := OneCellGrid();
            CellId(t, Some(Config.DefaultGridIdColumn), t.rows[0], polygon, showFloat) == "500000_200000"
  {
    FallbackIdOfCentre();
    assert Config.DefaultGridIdColumn != Config.GeometryColumn;
  }

  /** A single matched row summarises to one postcode, one match, a rate
      of 1. */
  lemma SummaryOfOneMatch(r: MatchRow)
    requires r.matchedGridId.Some?
    ensures SummarizeMatches(MatchTable([r])) == Ok(Summary(1, 1, 0, 1.0))
  {
    MatchTableCount([r]);
    assert CountSome([r]) == 1;
  }

  /** A postcode 100 m north-east of the centre is matched to that cell. */
  lemma OneCellMatch(showFloat: real -> string)
    ensures var cells := CellsOf(OneCellGrid(), Some(Config.DefaultGridIdColumn), showFloat);
            var p := PostcodePoint("AB1 0AA", 500100.0, 200100.0, Point(500100.0, 200100.0));
            MatchPostcodesToGrid([p], cells)
              == [MatchRow("AB1 0AA", 500100.0, 200100.0, Some("500000_200000"), Point(500100.0, 200100.0))]
  {
    var c := GridCell("500000_200000", 500000.0, 200000.0, CellPolygonFromCenter(500000.0, 200000.0));
    OneCellGridCells(showFloat);
    var p := PostcodePoint("AB1 0AA", 500100.0, 200100.0, Point(500100.0, 200100.0));
    CellInterior(500000.0, 200000.0, p.geometry);
    SingleMatch(p, c);
  }

  /** End to end: the postcode is matched to the cell and the summary
      reports one postcode, all matched. */
  lemma OneCellEndToEnd(showFloat: real -> string)
    ensures var cells := CellsOf(OneCellGrid(), Some(Config.DefaultGridIdColumn), showFloat);
            var p := PostcodePoint("AB1 0AA", 500100.0, 200100.0, Point(500100.0, 200100.0));
            var rows := MatchPostcodesToGrid([p], cells);
            && rows == [MatchRow("AB1 0AA", 500100.0, 200100.0, Some("500000_200000"), Point(500100.0, 200100.0))]
            && SummarizeMatches(MatchTable(rows)) == Ok(Summary(1, 1, 0, 1.0))
  {
    OneCellMatch(showFloat);
    SummaryOfOneMatch(MatchRow("AB1 0AA", 500100.0, 200100.0, Some("500000_200000"), Point(500100.0, 200100.0)));
  }
}
