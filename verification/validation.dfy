/** Schema validation: which required columns a table lacks, compared
    without regard to case. */
module Validation {
  import opened Common
  import Config

  /** The available column names, lower-cased. */
  function LoweredSet(columns: seq<string>): set<string>
  {
    set c | c in columns :: Lower(c)
  }

  /** The required columns whose lower-cased name matches no available
      column's lower-cased name, in the order (and with the multiplicity) of
      `required`. */
  function MissingColumns(available: seq<string>, required: seq<string>): (missing: seq<string>)
    ensures forall r :: r in missing <==> r in required && Lower(r) !in LoweredSet(available)
    ensures forall r :: Lower(r) !in LoweredSet(available) ==>
              multiset(missing)[r] == multiset(required)[r]
    ensures IsSubseq(missing, required)
  {
    var lowered := LoweredSet(available);
    var missing := Filter(required, r => Lower(r) !in lowered);
    FilterIsSubseq(required, r => Lower(r) !in lowered);
    FilterCount(required, r => Lower(r) !in lowered);
    missing
  }

  /** With nothing available, every required column is missing. */
  lemma NothingAvailable(required: seq<string>)
    ensures MissingColumns([], required) == required
  {
    var lowered := LoweredSet([]);
    assert lowered == {};
    FilterKeepsAll(required, r => Lower(r) !in lowered);
  }

  /** Making more columns available never adds to the missing list: the
      missing list for the larger schema is a subsequence of the other. */
  lemma {:induction false} MoreColumnsFewerMissing(
    available: seq<string>, available': seq<string>, required: seq<string>)
    requires forall c :: c in available ==> c in available'
    ensures IsSubseq(MissingColumns(available', required), MissingColumns(available, required))
    decreases |required|
  {
    var lo, lo' := LoweredSet(available), LoweredSet(available');
    assert lo <= lo';
    if required != [] {
      MoreColumnsFewerMissing(available, available', required[1..]);
      var m := MissingColumns(available, required);
      var m' := MissingColumns(available', required);
      var t := MissingColumns(available, required[1..]);
      var t' := MissingColumns(available', required[1..]);
      assert Filter(required, r => Lower(r) !in lo) == MissingColumns(available, required);
      assert required == [required[0]] + required[1..];
      var r0 := required[0];
      if Lower(r0) !in lo' {
        assert m == [r0] + t;
        assert m' == [r0] + t';
        assert m'[1..] == t' && m[1..] == t;
      } else if Lower(r0) !in lo {
        assert m == [r0] + t;
        assert m' == t';
        SubseqRefl(t);
        assert IsSubseq(t, m) by {
          if t != [] {
            assert m[1..] == t;
          }
        }
        SubseqTrans(m', t, m);
      } else {
        assert m == t && m' == t';
      }
    }
  }

  /** Nothing is missing exactly when every required name is available. */
  lemma NoneMissing(available: seq<string>, required: seq<string>)
    ensures MissingColumns(available, required) == [] <==>
            forall r :: r in required ==> Lower(r) in LoweredSet(available)
  {
    var m := MissingColumns(available, required);
    if m != [] {
      assert m[0] in m;
    }
  }

  /** `name` matches no column of `columns`, ignoring case. */
  predicate Absent(columns: seq<string>, name: string)
  {
    Lower(name) !in LoweredSet(columns)
  }

  /** `[name]` when `name` is absent, otherwise nothing. */
  function IfAbsent(columns: seq<string>, name: string): seq<string>
  {
    if Absent(columns, name) then [name] else []
  }

  /** The missing list is built one required name at a time. */
  lemma MissingCons(available: seq<string>, r: string, rest: seq<string>)
    ensures MissingColumns(available, [r] + rest) == IfAbsent(available, r) + MissingColumns(available, rest)
  {
    assert ([r] + rest)[1..] == rest;
  }

  lemma MissingTwo(available: seq<string>, a: string, b: string)
    ensures MissingColumns(available, [a, b]) == IfAbsent(available, a) + IfAbsent(available, b)
  {
    MissingCons(available, a, [b]);
    MissingCons(available, b, []);
    assert [a] + [b] == [a, b] && [b] + [] == [b];
  }

  lemma MissingThree(available: seq<string>, a: string, b: string, c: string)
    ensures MissingColumns(available, [a, b, c]) ==
            IfAbsent(available, a) + IfAbsent(available, b) + IfAbsent(available, c)
  {
    MissingCons(available, a, [b, c]);
    MissingTwo(available, b, c);
    assert [a] + [b, c] == [a, b, c];
    ConcatAssoc(IfAbsent(available, a), IfAbsent(available, b), IfAbsent(available, c));
  }

  /** `validate_nox_columns`: valid exactly when nothing is missing, that is,
      when both centre columns are present in some letter case. The list
      names each absent column once, `X` before `Y`. */
  function ValidateNoxColumns(columns: seq<string>): (r: (bool, seq<string>))
    ensures r.0 <==> r.1 == []
    ensures r.0 <==> forall c :: c in Config.NoxRequiredColumns ==> Lower(c) in LoweredSet(columns)
    ensures forall m :: m in r.1 <==>
              m in Config.NoxRequiredColumns && Lower(m) !in LoweredSet(columns)
    ensures r.1 == IfAbsent(columns, "X") + IfAbsent(columns, "Y")
  {
    var missing := MissingColumns(columns, Config.NoxRequiredColumns);
    NoneMissing(columns, Config.NoxRequiredColumns);
    MissingTwo(columns, "X", "Y");
    (|missing| == 0, missing)
  }

  /** `validate_postcode_columns`: valid exactly when nothing is missing,
      that is, when all three columns are present in some letter case. The
      list names each absent column once, in the order `pcd`, `oseast1m`,
      `osnrth1m`. */
  function ValidatePostcodeColumns(columns: seq<string>): (r: (bool, seq<string>))
    ensures r.0 <==> r.1 == []
    ensures r.0 <==> forall c :: c in Config.PostcodeRequiredColumns ==> Lower(c) in LoweredSet(columns)
    ensures forall m :: m in r.1 <==>
              m in Config.PostcodeRequiredColumns && Lower(m) !in LoweredSet(columns)
    ensures r.1 == IfAbsent(columns, "pcd") + IfAbsent(columns, "oseast1m") + IfAbsent(columns, "osnrth1m")
  {
    var missing := MissingColumns(columns, Config.PostcodeRequiredColumns);
    NoneMissing(columns, Config.PostcodeRequiredColumns);
    MissingThree(columns, "pcd", "oseast1m", "osnrth1m");
    (|missing| == 0, missing)
  }

  /** Upper-case headers pass the postcode validation. */
  lemma UpperCaseHeadersAreValid()
    ensures ValidatePostcodeColumns(["PCD", "OSEAST1M", "OSNRTH1M"]) == (true, [])
  {
    var cols := ["PCD", "OSEAST1M", "OSNRTH1M"];
    var lowered := LoweredSet(cols);
    assert Lower(cols[0]) == "pcd";
    assert Lower(cols[1]) == "oseast1m";
    assert Lower(cols[2]) == "osnrth1m";
    assert "pcd" in lowered && "oseast1m" in lowered && "osnrth1m" in lowered;
    forall c | c in Config.PostcodeRequiredColumns
      ensures Lower(c) in lowered
    {
      LowerOfLowercase(c);
    }
  }

  /** A postcode table with only `pcd` lacks exactly the two coordinate
      columns. */
  lemma OnlyPostcodeColumn()
    ensures var r := ValidatePostcodeColumns(["pcd"]);
            && !r.0
            && forall m :: m in r.1 <==> m == "oseast1m" || m == "osnrth1m"
  {
    var lowered := LoweredSet(["pcd"]);
    LowerOfLowercase("pcd");
    LowerOfLowercase("oseast1m");
    LowerOfLowercase("osnrth1m");
    assert lowered == {"pcd"};
    assert forall m :: m in Config.PostcodeRequiredColumns <==> m == "pcd" || m == "oseast1m" || m == "osnrth1m";
  }
}
