/** In-memory tables (pandas data frames) as a column list plus a sequence of
    rows, each row a map from column name to cell value. A missing cell (NaN,
    None) is `Missing`; a key a row does not carry also reads as `Missing`. */
module Tables {
  import opened Common
  import Decimal
  import Config
  import opened Geometry

  datatype Value =
    | Missing
    | Int(i: int)
    | Real(r: real)
    | Text(s: string)
    | Geom(p: Point)

  type Row = map<string, Value>

  datatype Table = Table(columns: seq<string>, rows: seq<Row>)

  /** Every row carries exactly the table's columns. */
  predicate WellFormed(t: Table)
  {
    forall i :: 0 <= i < |t.rows| ==> t.rows[i].Keys == set c | c in t.columns
  }

  function Cell(row: Row, c: string): Value
  {
    if c in row then row[c] else Missing
  }

  /** pandas' `isna`. */
  predicate IsNa(v: Value)
  {
    v.Missing?
  }

  predicate IsNumber(v: Value)
  {
    v.Int? || v.Real?
  }

  /** Python's `float(v)` on a number. */
  function AsReal(v: Value): real
    requires IsNumber(v)
  {
    if v.Int? then v.i as real else v.r
  }

  /** Python's `int(v)` on a number: floats are truncated toward zero. */
  function PyInt(v: Value): int
    requires IsNumber(v)
  {
    if v.Int? then v.i else Decimal.Trunc(v.r)
  }

  /** Python's `str(v)`. The text of a float (and hence of a point) comes
      from `showFloat`, which stands for Python's float formatting. */
  function PyStr(v: Value, showFloat: real -> string): string
  {
    match v
    case Missing => "nan"
    case Int(i) => Decimal.IntToString(i)
    case Real(r) => showFloat(r)
    case Text(s) => s
    case Geom(p) => "POINT (" + showFloat(p.x) + " " + showFloat(p.y) + ")"
  }

  /** Python's `str` of a polygon: its well-known text, listing the closed
      ring's coordinates in order. */
  function PolygonText(p: Polygon, showFloat: real -> string): string
  {
    if p.corners == [] then "POLYGON EMPTY"
    else "POLYGON ((" + CoordsText(Exterior(p), showFloat) + "))"
  }

  /** Coordinate pairs `x y`, separated by `", "`. */
  function CoordsText(ps: seq<Point>, showFloat: real -> string): string
  {
    if ps == [] then ""
    else
      var pair := showFloat(ps[0].x) + " " + showFloat(ps[0].y);
      if |ps| == 1 then pair else pair + ", " + CoordsText(ps[1..], showFloat)
  }

  /** Both OS grid coordinates of a postcode row are present. */
  predicate HasCoordinates(row: Row)
  {
    !IsNa(Cell(row, Config.EastingColumn)) && !IsNa(Cell(row, Config.NorthingColumn))
  }

  /** Errors the pipeline raises. `ValueError` carries its message and, for
      schema failures, the list of missing columns. */
  datatype Error =
    | ValueError(message: string, missing: seq<string>)
    | KeyError(key: string)
}
