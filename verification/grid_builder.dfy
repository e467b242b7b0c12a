/** The grid builder: square cell polygons from cell centres, a grid table
    with one polygon per row, and grid-cell records with their identifiers. */
module GridBuilder {
  import opened Common
  import opened Decimal
  import Config
  import opened Geometry
  import opened Tables
  import opened Models

  /** `cell_polygon_from_center`: the 1 km square centred on `(x, y)`, its
      corners running counter-clockwise from the lower-left one, with no
      rounding of the coordinates. */
  function CellPolygonFromCenter(x: real, y: real): (p: Polygon)
    ensures IsAxisBox(p)
    ensures BoundsOf(p) == Bounds(x - 500.0, y - 500.0, x + 500.0, y + 500.0)
    ensures Centre(BoundsOf(p)) == Point(x, y)
    ensures |Exterior(p)| == 5 && Exterior(p)[4] == Exterior(p)[0]
    ensures TwiceSignedArea(Exterior(p)) == 2.0 * 1000.0 * 1000.0
  {
    var h := Config.HalfCell;
    var p := Polygon([Point(x - h, y - h), Point(x + h, y - h),
                      Point(x + h, y + h), Point(x - h, y + h)]);
    assert p == BoxPolygon(Bounds(x - 500.0, y - 500.0, x + 500.0, y + 500.0));
    BoxPolygonBounds(Bounds(x - 500.0, y - 500.0, x + 500.0, y + 500.0));
    BoxPolygonArea(Bounds(x - 500.0, y - 500.0, x + 500.0, y + 500.0));
    p
  }

  /** The centre of every cell is within it, and every point within it is
      less than half a cell away from the centre along each axis. */
  lemma CellInterior(x: real, y: real, q: Point)
    ensures Within(Point(x, y), CellPolygonFromCenter(x, y))
    ensures Within(q, CellPolygonFromCenter(x, y)) <==>
            x - 500.0 < q.x < x + 500.0 && y - 500.0 < q.y < y + 500.0
  {
  }

  /** Cells whose centres are at least one cell apart along some axis have
      disjoint interiors. */
  lemma SeparatedCellsAreDisjoint(x: real, y: real, x': real, y': real)
    requires x' - x >= 1000.0 || x - x' >= 1000.0 || y' - y >= 1000.0 || y - y' >= 1000.0
    ensures InteriorsDisjoint(CellPolygonFromCenter(x, y), CellPolygonFromCenter(x', y'))
  {
  }

  /** The centre columns hold numbers in every row. */
  predicate CentresNumeric(rows: seq<Row>)
  {
    forall i :: 0 <= i < |rows| ==> IsNumber(Cell(rows[i], "X")) && IsNumber(Cell(rows[i], "Y"))
  }

  /** A grid table with its geometry column: the original table plus one
      polygon per row. */
  datatype GridFrame = GridFrame(table: Table, polygons: seq<Polygon>)

  /** `build_grid_geodataframe`: fails exactly when the table lacks a column
      named `X` or `Y` (case-sensitive); otherwise keeps the table as it is
      and adds, row by row, the 1 km square around that row's centre. */
  function BuildGridFrame(t: Table): (r: Result<GridFrame, Error>)
    requires "X" in t.columns && "Y" in t.columns ==> CentresNumeric(t.rows)
    ensures r.Err? <==> "X" !in t.columns || "Y" !in t.columns
    ensures r.Err? ==> r.error == ValueError("NOx dataset must contain 'X' and 'Y' columns.", [])
    ensures r.Ok? ==> r.value.table == t && |r.value.polygons| == |t.rows|
    ensures r.Ok? ==> forall i :: 0 <= i < |t.rows| ==>
              var x, y := AsReal(Cell(t.rows[i], "X")), AsReal(Cell(t.rows[i], "Y"));
              IsAxisBox(r.value.polygons[i]) &&
              BoundsOf(r.value.polygons[i]) == Bounds(x - 500.0, y - 500.0, x + 500.0, y + 500.0)
  {
    if "X" !in t.columns || "Y" !in t.columns then
      Err(ValueError("NOx dataset must contain 'X' and 'Y' columns.", []))
    else
      Ok(GridFrame(t, seq(|t.rows|, i requires 0 <= i < |t.rows| =>
                            CellPolygonFromCenter(AsReal(Cell(t.rows[i], "X")),
                                                  AsReal(Cell(t.rows[i], "Y"))))))
  }

  /** The fallback identifier `"{int(X)}_{int(Y)}"`: it reads back as the
      truncated centre. */
  function FallbackId(x: Value, y: Value): (id: string)
    requires IsNumber(x) && IsNumber(y)
    ensures ParseFallbackId(id) == Some((PyInt(x), PyInt(y)))
  {
    var a, b := IntToString(PyInt(x)), IntToString(PyInt(y));
    var id := a + "_" + b;
    NoUnderscore(PyInt(x));
    UnderscoreAfter(a, b);
    assert id[..|a|] == a && id[|a| + 1..] == b;
    IntStringRoundTrip(PyInt(x));
    IntStringRoundTrip(PyInt(y));
    id
  }

  /** The fallback id is the two truncated coordinates joined by `_`. */
  lemma FallbackIdText(x: Value, y: Value)
    requires IsNumber(x) && IsNumber(y)
    ensures FallbackId(x, y) == IntToString(PyInt(x)) + "_" + IntToString(PyInt(y))
  {
  }

  lemma NoUnderscore(i: int)
    ensures '_' !in IntToString(i)
  {
  }

  /** The position of the first `_` in `s`, or `|s|` when there is none. */
  function UnderscoreAt(s: string): (k: nat)
    ensures k <= |s|
    ensures k < |s| ==> s[k] == '_'
    ensures forall j :: 0 <= j < k ==> s[j] != '_'
  {
    if s == [] || s[0] == '_' then 0
    else 1 + UnderscoreAt(s[1..])
  }

  /** The first `_` after an underscore-free string is the one appended. */
  lemma {:induction false} UnderscoreAfter(a: string, b: string)
    requires '_' !in a
    ensures UnderscoreAt(a + "_" + b) == |a|
  {
    var s := a + "_" + b;
    assert s[|a|] == '_';
    assert forall j :: 0 <= j < |a| ==> s[j] == a[j] && a[j] in a;
  }

  /** Splits an identifier at its first `_` and reads both halves as
      integers; `None` when it is not of that form. */
  function ParseFallbackId(id: string): Option<(int, int)>
  {
    var k := UnderscoreAt(id);
    if k < |id| && IsIntText(id[..k]) && IsIntText(id[k + 1..]) then
      Some((ParseInt(id[..k]), ParseInt(id[k + 1..])))
    else None
  }

  /** Two fallback ids are equal exactly when the truncated centres are:
      the id determines the integer centre. */
  lemma FallbackIdInjective(x: Value, y: Value, x': Value, y': Value)
    requires IsNumber(x) && IsNumber(y) && IsNumber(x') && IsNumber(y')
    ensures FallbackId(x, y) == FallbackId(x', y') <==> PyInt(x) == PyInt(x') && PyInt(y) == PyInt(y')
  {
    if FallbackId(x, y) == FallbackId(x', y') {
      assert ParseFallbackId(FallbackId(x, y)) == ParseFallbackId(FallbackId(x', y'));
    }
  }

  /** The columns of the frame built from `t`: those of `t`, with the
      geometry column added at the end unless `t` already has one. */
  function FrameColumns(t: Table): seq<string>
  {
    if Config.GeometryColumn in t.columns then t.columns else t.columns + [Config.GeometryColumn]
  }

  /** Whether the identifier column is used: it is named and is a column of
      the frame, the geometry column included. An empty name counts as a
      name here. */
  predicate UsesIdColumn(t: Table, idColumn: Option<string>)
  {
    idColumn.Some? && idColumn.value in FrameColumns(t)
  }

  /** The id of a row's cell, whose polygon is `polygon`: the text of its
      id-column cell when that column is used (the polygon's text for the
      geometry column), otherwise an id that reads back as the row's
      truncated centre. */
  function CellId(t: Table, idColumn: Option<string>, row: Row, polygon: Polygon, showFloat: real -> string)
    : (id: string)
    requires IsNumber(Cell(row, "X")) && IsNumber(Cell(row, "Y"))
    ensures UsesIdColumn(t, idColumn) && idColumn.value != Config.GeometryColumn ==>
              id == PyStr(Cell(row, idColumn.value), showFloat)
    ensures idColumn == Some(Config.GeometryColumn) ==> id == PolygonText(polygon, showFloat)
    ensures !UsesIdColumn(t, idColumn) ==>
              ParseFallbackId(id) == Some((PyInt(Cell(row, "X")), PyInt(Cell(row, "Y"))))
  {
    if idColumn == Some(Config.GeometryColumn) then PolygonText(polygon, showFloat)
    else if UsesIdColumn(t, idColumn) then PyStr(Cell(row, idColumn.value), showFloat)
    else FallbackId(Cell(row, "X"), Cell(row, "Y"))
  }

  /** `gridcells_from_geodataframe`: one cell per row, in row order, with the
      row's centre and polygon; colliding identifiers are not merged. */
  function GridCellsFromFrame(g: GridFrame, idColumn: Option<string>, showFloat: real -> string)
    : (cells: seq<GridCell>)
    requires |g.polygons| == |g.table.rows|
    requires CentresNumeric(g.table.rows)
    ensures |cells| == |g.table.rows|
    ensures forall i :: 0 <= i < |cells| ==>
              && cells[i].centerX == AsReal(Cell(g.table.rows[i], "X"))
              && cells[i].centerY == AsReal(Cell(g.table.rows[i], "Y"))
              && cells[i].geometry == g.polygons[i]
              && cells[i].id == CellId(g.table, idColumn, g.table.rows[i], g.polygons[i], showFloat)
  {
    var rows := g.table.rows;
    seq(|rows|, i requires 0 <= i < |rows| =>
      GridCell(CellId(g.table, idColumn, rows[i], g.polygons[i], showFloat),
               AsReal(Cell(rows[i], "X")), AsReal(Cell(rows[i], "Y")), g.polygons[i]))
  }

  /** Cells built from a table are centred squares: each cell's polygon is
      the 1 km box around its own recorded centre. */
  lemma BuiltCellsAreCentredSquares(t: Table, idColumn: Option<string>, showFloat: real -> string)
    requires "X" in t.columns && "Y" in t.columns && CentresNumeric(t.rows)
    ensures BuildGridFrame(t).Ok?
    ensures var cells := GridCellsFromFrame(BuildGridFrame(t).value, idColumn, showFloat);
            forall i :: 0 <= i < |cells| ==>
              && IsAxisBox(cells[i].geometry)
              && Centre(BoundsOf(cells[i].geometry)) == Point(cells[i].centerX, cells[i].centerY)
              && Within(Point(cells[i].centerX, cells[i].centerY), cells[i].geometry)
  {
    var g := BuildGridFrame(t).value;
    var cells := GridCellsFromFrame(g, idColumn, showFloat);
    forall i | 0 <= i < |cells|
      ensures IsAxisBox(cells[i].geometry)
      ensures Centre(BoundsOf(cells[i].geometry)) == Point(cells[i].centerX, cells[i].centerY)
      ensures Within(Point(cells[i].centerX, cells[i].centerY), cells[i].geometry)
    {
      var x, y := cells[i].centerX, cells[i].centerY;
      assert cells[i].geometry == CellPolygonFromCenter(x, y);
      CellInterior(x, y, Point(x, y));
    }
  }

  /** Without an identifier column, distinct cells built from different
      integer centres have different identifiers; with equal truncated
      centres they collide, and both are kept. */
  lemma FallbackIdsSeparateCentres(g: GridFrame, idColumn: Option<string>, showFloat: real -> string,
                                   i: int, j: int)
    requires |g.polygons| == |g.table.rows|
    requires CentresNumeric(g.table.rows)
    requires !UsesIdColumn(g.table, idColumn)
    requires 0 <= i < |g.table.rows| && 0 <= j < |g.table.rows|
    ensures var cells := GridCellsFromFrame(g, idColumn, showFloat);
            var ri, rj := g.table.rows[i], g.table.rows[j];
            cells[i].id == cells[j].id <==>
              PyInt(Cell(ri, "X")) == PyInt(Cell(rj, "X")) && PyInt(Cell(ri, "Y")) == PyInt(Cell(rj, "Y"))
  {
    var ri, rj := g.table.rows[i], g.table.rows[j];
    FallbackIdInjective(Cell(ri, "X"), Cell(ri, "Y"), Cell(rj, "X"), Cell(rj, "Y"));
  }
}
