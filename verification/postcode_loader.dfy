/** The postcode loader: validates the schema (without regard to case), then
    reads the exact columns `pcd`, `oseast1m`, `osnrth1m` of each row and
    builds one postcode point per row that has both coordinates. */
module PostcodeLoader {
  import opened Common
  import Config
  import opened Geometry
  import opened Tables
  import opened Models
  import opened Validation

  /** The coordinates of every row are numbers where present. */
  predicate CoordinatesNumericOrMissing(rows: seq<Row>)
  {
    forall row :: row in rows ==>
      && (IsNa(Cell(row, Config.EastingColumn)) || IsNumber(Cell(row, Config.EastingColumn)))
      && (IsNa(Cell(row, Config.NorthingColumn)) || IsNumber(Cell(row, Config.NorthingColumn)))
  }

  /** The row carries the three columns under their exact names. */
  predicate HasExactColumns(row: Row)
  {
    Config.PostcodeColumn in row && Config.EastingColumn in row && Config.NorthingColumn in row
  }

  /** The rows the loader turns into points, in input order. */
  function Located(rows: seq<Row>): seq<Row>
  {
    Filter(rows, HasCoordinates)
  }

  /** Both coordinates of the row are numbers. */
  predicate NumericCoordinates(row: Row)
  {
    IsNumber(Cell(row, Config.EastingColumn)) && IsNumber(Cell(row, Config.NorthingColumn))
  }

  /** The point of one located row: `str(pcd)`, the coordinates as floats,
      and a point geometry at exactly those coordinates. */
  function PointOf(row: Row, showFloat: real -> string): (p: PostcodePoint)
    requires NumericCoordinates(row)
    ensures p.geometry == Point(p.easting, p.northing)
  {
    var e := AsReal(Cell(row, Config.EastingColumn));
    var n := AsReal(Cell(row, Config.NorthingColumn));
    PostcodePoint(PyStr(Cell(row, Config.PostcodeColumn), showFloat), e, n, Point(e, n))
  }

  /** `points[k]` is the point of `rows[k]`, for every `k`. */
  predicate PointsOfRows(points: seq<PostcodePoint>, rows: seq<Row>, showFloat: real -> string)
  {
    |points| == |rows| &&
    forall k :: 0 <= k < |points| ==> NumericCoordinates(rows[k]) && points[k] == PointOf(rows[k], showFloat)
  }

  lemma PointsOfRowsCons(row: Row, points: seq<PostcodePoint>, rows: seq<Row>, showFloat: real -> string)
    requires NumericCoordinates(row) && PointsOfRows(points, rows, showFloat)
    ensures PointsOfRows([PointOf(row, showFloat)] + points, [row] + rows, showFloat)
  {
    var points', rows' := [PointOf(row, showFloat)] + points, [row] + rows;
    assert forall k :: 1 <= k < |points'| ==> points'[k] == points[k - 1] && rows'[k] == rows[k - 1];
  }

  /** The row loop: a row lacking one of the exact names raises `KeyError`
      for the first such name; a row with a missing coordinate is skipped;
      every other row yields its point, in order. */
  function LoadRows(rows: seq<Row>, showFloat: real -> string): (r: Result<seq<PostcodePoint>, Error>)
    requires CoordinatesNumericOrMissing(rows)
    ensures r.Ok? <==> forall i :: 0 <= i < |rows| ==> HasExactColumns(rows[i])
    ensures r.Err? ==> r.error.KeyError? && r.error.key in Config.PostcodeRequiredColumns
  {
    if rows == [] then Ok([])
    else
      var row := rows[0];
      assert row in rows;
      assert forall x :: x in rows[1..] ==> x in rows;
      if Config.PostcodeColumn !in row then Err(KeyError(Config.PostcodeColumn))
      else if Config.EastingColumn !in row then Err(KeyError(Config.EastingColumn))
      else if Config.NorthingColumn !in row then Err(KeyError(Config.NorthingColumn))
      else
        var rest := LoadRows(rows[1..], showFloat);
        assert forall i :: 1 <= i < |rows| ==> rows[i] == rows[1..][i - 1];
        if rest.Err? then rest
        else if IsNa(row[Config.EastingColumn]) || IsNa(row[Config.NorthingColumn]) then rest
        else Ok([PointOf(row, showFloat)] + rest.value)
  }

  lemma LocatedCons(rows: seq<Row>)
    requires rows != []
    ensures Located(rows) == (if HasCoordinates(rows[0]) then [rows[0]] else []) + Located(rows[1..])
  {
  }

  lemma LoadRowsCons(rows: seq<Row>, showFloat: real -> string)
    requires rows != [] && CoordinatesNumericOrMissing(rows)
    requires LoadRows(rows, showFloat).Ok?
    ensures CoordinatesNumericOrMissing(rows[1..]) && LoadRows(rows[1..], showFloat).Ok?
    ensures HasCoordinates(rows[0]) ==> NumericCoordinates(rows[0])
    ensures HasCoordinates(rows[0]) ==>
              LoadRows(rows, showFloat).value == [PointOf(rows[0], showFloat)] + LoadRows(rows[1..], showFloat).value
    ensures !HasCoordinates(rows[0]) ==> LoadRows(rows, showFloat) == LoadRows(rows[1..], showFloat)
  {
    assert rows[0] in rows;
    assert forall x :: x in rows[1..] ==> x in rows;
  }

  /** Each located row, and only those, yields a point, in input order. */
  lemma {:induction false} LoadRowsPoints(rows: seq<Row>, showFloat: real -> string)
    requires CoordinatesNumericOrMissing(rows)
    requires LoadRows(rows, showFloat).Ok?
    ensures PointsOfRows(LoadRows(rows, showFloat).value, Located(rows), showFloat)
    decreases |rows|
  {
    if rows != [] {
      LoadRowsCons(rows, showFloat);
      LoadRowsPoints(rows[1..], showFloat);
      LocatedCons(rows);
      if HasCoordinates(rows[0]) {
        assert rows[0] in rows;
        PointsOfRowsCons(rows[0], LoadRows(rows[1..], showFloat).value, Located(rows[1..]), showFloat);
      }
    }
  }

  /** `load_postcodes_from_dataframe`. It raises a `ValueError` carrying the
      missing list exactly when the (case-insensitive) validation fails.
      Otherwise it reads the exact column names, so a table that passed
      validation with differently-cased headers raises `KeyError` as soon
      as it has a row. On success the points are those of the located
      rows, in input order; nothing else is filtered. */
  function LoadPostcodes(t: Table, showFloat: real -> string): (r: Result<seq<PostcodePoint>, Error>)
    requires CoordinatesNumericOrMissing(t.rows)
    ensures r.Err? && r.error.ValueError? <==> !ValidatePostcodeColumns(t.columns).0
    ensures r.Err? && r.error.ValueError? ==>
              r.error.missing != [] &&
              forall m :: m in r.error.missing <==>
                m in Config.PostcodeRequiredColumns && Lower(m) !in LoweredSet(t.columns)
    ensures r.Err? && r.error.ValueError? ==> r.error.missing == ValidatePostcodeColumns(t.columns).1
    ensures r.Err? && r.error.KeyError? ==> exists i :: 0 <= i < |t.rows| && !HasExactColumns(t.rows[i])
    ensures r.Ok? <==>
              ValidatePostcodeColumns(t.columns).0 && forall i :: 0 <= i < |t.rows| ==> HasExactColumns(t.rows[i])
    ensures r.Ok? ==> |r.value| == |Located(t.rows)|
    ensures r.Ok? ==> forall k :: 0 <= k < |r.value| ==>
              var row := Located(t.rows)[k];
              && row in t.rows
              && NumericCoordinates(row)
              && r.value[k].postcode == PyStr(Cell(row, Config.PostcodeColumn), showFloat)
              && r.value[k].easting == AsReal(Cell(row, Config.EastingColumn))
              && r.value[k].northing == AsReal(Cell(row, Config.NorthingColumn))
              && r.value[k].geometry == Point(r.value[k].easting, r.value[k].northing)
  {
    var v := ValidatePostcodeColumns(t.columns);
    if !v.0 then Err(ValueError("Postcode dataset missing required columns", v.1))
    else
      var r := LoadRows(t.rows, showFloat);
      if r.Ok? then LoadRowsPoints(t.rows, showFloat); r else r
  }

  /** Headers carrying the exact lower-case names pass validation. */
  lemma ExactHeadersValid(columns: seq<string>)
    requires forall c :: c in Config.PostcodeRequiredColumns ==> c in columns
    ensures ValidatePostcodeColumns(columns).0
  {
    var lowered := LoweredSet(columns);
    forall c | c in Config.PostcodeRequiredColumns
      ensures Lower(c) in lowered
    {
      LowerOfLowercase(c);
    }
  }

  /** In a well-formed table whose headers carry the exact names, loading
      cannot fail. */
  lemma ExactHeadersLoad(t: Table, showFloat: real -> string)
    requires WellFormed(t) && CoordinatesNumericOrMissing(t.rows)
    requires Config.PostcodeColumn in t.columns && Config.EastingColumn in t.columns
             && Config.NorthingColumn in t.columns
    ensures LoadPostcodes(t, showFloat).Ok?
  {
    var lowered := LoweredSet(t.columns);
    forall c | c in Config.PostcodeRequiredColumns
      ensures Lower(c) in lowered
    {
      LowerOfLowercase(c);
    }
    forall i | 0 <= i < |t.rows|
      ensures HasExactColumns(t.rows[i])
    {
      assert t.rows[i].Keys == set c | c in t.columns;
    }
  }

  /** The single-row table of the loader's unit test yields one point at
      (395000, 800000) carrying the postcode text unchanged. */
  lemma SingleRowExample(showFloat: real -> string)
    ensures var row := map["pcd" := Text("AB1 0AA"), "oseast1m" := Int(395000), "osnrth1m" := Int(800000)];
            LoadPostcodes(Table(Config.PostcodeRequiredColumns, [row]), showFloat)
              == Ok([PostcodePoint("AB1 0AA", 395000.0, 800000.0, Point(395000.0, 800000.0))])
  {
    var row := map["pcd" := Text("AB1 0AA"), "oseast1m" := Int(395000), "osnrth1m" := Int(800000)];
    SingleRowFacts(row, showFloat);
    LoadOneRow(Table(Config.PostcodeRequiredColumns, [row]), showFloat);
  }

  lemma SingleRowFacts(row: Row, showFloat: real -> string)
    requires row == map["pcd" := Text("AB1 0AA"), "oseast1m" := Int(395000), "osnrth1m" := Int(800000)]
    ensures WellFormed(Table(Config.PostcodeRequiredColumns, [row]))
    ensures NumericCoordinates(row)
    ensures PointOf(row, showFloat) == PostcodePoint("AB1 0AA", 395000.0, 800000.0, Point(395000.0, 800000.0))
  {
    assert row.Keys == set c | c in Config.PostcodeRequiredColumns;
  }

  /** A one-row table with the exact headers and both coordinates yields
      that row's point. */
  lemma LoadOneRow(t: Table, showFloat: real -> string)
    requires WellFormed(t) && |t.rows| == 1 && NumericCoordinates(t.rows[0])
    requires Config.PostcodeColumn in t.columns && Config.EastingColumn in t.columns
             && Config.NorthingColumn in t.columns
    ensures CoordinatesNumericOrMissing(t.rows)
    ensures LoadPostcodes(t, showFloat) == Ok([PointOf(t.rows[0], showFloat)])
  {
    assert forall row :: row in t.rows ==> row == t.rows[0];
    ExactHeadersLoad(t, showFloat);
    LocatedCons(t.rows);
    assert t.rows[1..] == [];
    var points := LoadPostcodes(t, showFloat).value;
    assert |points| == 1 && points == [points[0]];
  }

  /** Validation accepts upper-case headers, but the loader then looks the
      columns up under their lower-case names and raises `KeyError` for
      `pcd` on the first row. */
  lemma UpperCaseHeadersRaiseKeyError(showFloat: real -> string)
    ensures var row := map["PCD" := Text("AB1 0AA"), "OSEAST1M" := Int(395000), "OSNRTH1M" := Int(800000)];
            LoadPostcodes(Table(["PCD", "OSEAST1M", "OSNRTH1M"], [row]), showFloat)
              == Err(KeyError("pcd"))
  {
    UpperCaseHeadersAreValid();
    var row := map["PCD" := Text("AB1 0AA"), "OSEAST1M" := Int(395000), "OSNRTH1M" := Int(800000)];
    assert "pcd" !in row;
  }

  /** A table without the coordinate columns raises `ValueError` naming
      exactly those two. */
  lemma MissingCoordinateColumnsRaiseValueError(showFloat: real -> string)
    ensures var r := LoadPostcodes(Table(["pcd"], []), showFloat);
            && r.Err? && r.error.ValueError?
            && forall m :: m in r.error.missing <==> m == "oseast1m" || m == "osnrth1m"
  {
    OnlyPostcodeColumn();
  }

  /** Three rows: a postcode, the same postcode again (now terminated),
      and a row whose easting is missing. */
  function UncleanRows(): (rows: seq<Row>)
    ensures |rows| == 3 && CoordinatesNumericOrMissing(rows)
    ensures forall i :: 0 <= i < |rows| ==> HasExactColumns(rows[i])
    ensures Cell(rows[0], Config.PostcodeColumn) == Cell(rows[1], Config.PostcodeColumn) == Text("AB1 0AA")
    ensures HasCoordinates(rows[0]) && HasCoordinates(rows[1]) && !HasCoordinates(rows[2])
  {
    [ map["pcd" := Text("AB1 0AA"), "oseast1m" := Int(1), "osnrth1m" := Int(2), "doterm" := Missing],
      map["pcd" := Text("AB1 0AA"), "oseast1m" := Int(3), "osnrth1m" := Int(4), "doterm" := Text("202001")],
      map["pcd" := Text("AB1 0AB"), "oseast1m" := Missing, "osnrth1m" := Int(5), "doterm" := Missing] ]
  }

  lemma {:induction false} LocatedFirstTwo(r1: Row, r2: Row, r3: Row)
    requires HasCoordinates(r1) && HasCoordinates(r2) && !HasCoordinates(r3)
    ensures Located([r1, r2, r3]) == [r1, r2]
  {
    assert [r1, r2, r3][1..] == [r2, r3];
    assert [r2, r3][1..] == [r3];
    assert [r3][1..] == [];
    assert Located([r3]) == [];
    assert Located([r2, r3]) == [r2];
  }

  /** Loading a table that passes validation and carries the exact names
      in every row yields the points of its located rows. */
  lemma LoadsLocatedRows(t: Table, showFloat: real -> string)
    requires CoordinatesNumericOrMissing(t.rows) && ValidatePostcodeColumns(t.columns).0
    requires forall i :: 0 <= i < |t.rows| ==> HasExactColumns(t.rows[i])
    ensures LoadPostcodes(t, showFloat).Ok?
    ensures PointsOfRows(LoadPostcodes(t, showFloat).value, Located(t.rows), showFloat)
  {
    LoadRowsPoints(t.rows, showFloat);
  }

  lemma PostcodesOfPoints(points: seq<PostcodePoint>, rows: seq<Row>, showFloat: real -> string)
    requires PointsOfRows(points, rows, showFloat)
    ensures forall k :: 0 <= k < |points| ==> points[k].postcode == PyStr(Cell(rows[k], Config.PostcodeColumn), showFloat)
  {
  }

  /** The loader does no cleaning: a repeated postcode and a terminated
      postcode each still yield a point; only the row with a missing
      coordinate is skipped. */
  lemma LoaderDoesNotClean(showFloat: real -> string)
    ensures var r := LoadPostcodes(Table(["pcd", "oseast1m", "osnrth1m", "doterm"], UncleanRows()), showFloat);
            && r.Ok? && |r.value| == 2
            && r.value[0].postcode == r.value[1].postcode == "AB1 0AA"
  {
    var t := Table(["pcd", "oseast1m", "osnrth1m", "doterm"], UncleanRows());
    ExactHeadersValid(t.columns);
    FirstTwoLoaded(t, showFloat);
  }

  /** Of three rows with the exact names, the first two located, the loader
      yields the points of the first two. */
  lemma FirstTwoLoaded(t: Table, showFloat: real -> string)
    requires |t.rows| == 3 && CoordinatesNumericOrMissing(t.rows) && ValidatePostcodeColumns(t.columns).0
    requires forall i :: 0 <= i < |t.rows| ==> HasExactColumns(t.rows[i])
    requires HasCoordinates(t.rows[0]) && HasCoordinates(t.rows[1]) && !HasCoordinates(t.rows[2])
    ensures var r := LoadPostcodes(t, showFloat);
            && r.Ok? && |r.value| == 2
            && r.value[0].postcode == PyStr(Cell(t.rows[0], Config.PostcodeColumn), showFloat)
            && r.value[1].postcode == PyStr(Cell(t.rows[1], Config.PostcodeColumn), showFloat)
  {
    var rows := t.rows;
    LoadsLocatedRows(t, showFloat);
    LocatedFirstTwo(rows[0], rows[1], rows[2]);
    assert rows == [rows[0], rows[1], rows[2]];
    var located := Located(rows);
    PostcodesOfPoints(LoadPostcodes(t, showFloat).value, located, showFloat);
  }
}
