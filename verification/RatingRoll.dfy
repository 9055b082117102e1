/**
 The rating-roll importer on top of the scanner: every data row that is not
 blank ends up in exactly one of the accepted rows and the row errors.

 Header normalisation (`normHeader`) and the row schema are parameters.
 */
module RatingRoll {
  import opened Options
  import opened JsText
  import opened Csv

  const ASSESSMENT_NUMBER := Ascii("assessment_number")
  const ADDRESS := Ascii("address")
  const SUBURB := Ascii("suburb")
  const POSTCODE := Ascii("postcode")
  const STATE := Ascii("state")
  const LANDUSE := Ascii("landuse")
  const VALUATION := Ascii("valuation")
  const ANNUAL_RATES := Ascii("annual_rates")
  const OWNER_NAME := Ascii("owner_name")
  const BALANCE := Ascii("balance")
  const OWNER_ABN := Ascii("owner_abn")
  const LOT_PLAN := Ascii("lot_plan")
  const LAT := Ascii("lat")
  const LNG := Ascii("lng")

  const REQUIRED := [ASSESSMENT_NUMBER, ADDRESS, SUBURB, POSTCODE, STATE, LANDUSE, VALUATION, ANNUAL_RATES, OWNER_NAME]

  const OPTIONAL := [BALANCE, OWNER_ABN, LOT_PLAN, LAT, LNG]

  // What the row schema says of one row.
  datatype Check<R> = Accept(row: R) | Reject(message: Str)

  datatype RowError = RowError(row: nat, assessmentNumber: Option<Str>, message: Str)

  datatype Roll<R> =
    | EmptyText
    | NoDataRows
    | MissingHeader(name: Str)
    | Imported(rows: seq<R>, errors: seq<RowError>)

  // Which column each known header is in; the last of two equal headers wins.
  type Columns = map<Str, nat>

  function TrimStart(s: Str): Str { if s != [] && IsSpace(s[0]) then TrimStart(s[1..]) else s }

  function TrimEnd(s: Str): Str {
    if s != [] && IsSpace(s[|s| - 1]) then TrimEnd(s[..|s| - 1]) else s
  }

  function Trim(s: Str): Str { TrimEnd(TrimStart(s)) }

  lemma {:induction false} TrimStartIs(s: Str)
    ensures |TrimStart(s)| <= |s| && TrimStart(s) == s[|s| - |TrimStart(s)|..] && Blank(s[..|s| - |TrimStart(s)|])
    ensures TrimStart(s) != [] ==> !IsSpace(TrimStart(s)[0])
  {
    hide IsSpace;
    if s != [] && IsSpace(s[0]) {
      TrimStartIs(s[1..]);
      var k := |s| - 1 - |TrimStart(s[1..])|;
      assert s[..k + 1] == [s[0]] + s[1..][..k] && s[1..][k..] == s[k + 1..];
    }
  }

  lemma {:induction false} TrimEndIs(s: Str)
    ensures |TrimEnd(s)| <= |s| && TrimEnd(s) == s[..|TrimEnd(s)|] && Blank(s[|TrimEnd(s)|..])
    ensures TrimEnd(s) != [] ==> !IsSpace(TrimEnd(s)[|TrimEnd(s)| - 1])
  {
    hide IsSpace;
    if s != [] && IsSpace(s[|s| - 1]) {
      var n := |s| - 1;
      TrimEndIs(s[..n]);
      var k := |TrimEnd(s[..n])|;
      assert s[k..] == s[..n][k..] + [s[n]] && s[..n][..k] == s[..k];
    }
  }

  /** Trimming takes the white space off both ends, all of it and nothing else. */
  lemma TrimExactly(s: Str) returns (a: Str, b: Str)
    ensures s == a + Trim(s) + b && Blank(a) && Blank(b)
    ensures Trim(s) != [] ==> !IsSpace(Trim(s)[0]) && !IsSpace(Trim(s)[|Trim(s)| - 1])
  {
    hide *;
    var t := TrimStart(s);
    TrimStartIs(s);
    TrimEndIs(t);
    TrimIsBoth(s);
    a, b := s[..|s| - |t|], t[|Trim(s)|..];
    Middle(s, |s| - |t|, |Trim(s)|);
  }

  lemma Middle(s: Str, k: nat, m: nat)
    requires k + m <= |s|
    ensures s == s[..k] + s[k..][..m] + s[k..][m..]
    ensures m > 0 ==> s[k..][..m][0] == s[k..][0]
  {
  }

  lemma TrimIsBoth(s: Str)
    ensures Trim(s) == TrimEnd(TrimStart(s))
  {
  }

  function ColumnsOf(header: seq<Str>, norm: Str -> Str): Columns {
    if header == [] then map[]
    else
      var n := |header| - 1;
      var h := norm(header[n]);
      var before := ColumnsOf(header[..n], norm);
      if h in REQUIRED || h in OPTIONAL then before[h := n] else before
  }

  function FirstMissing(required: seq<Str>, columns: Columns): Option<Str> {
    if required == [] then None
    else if required[0] !in columns then Some(required[0])
    else FirstMissing(required[1..], columns)
  }

  // Column i is the last whose header normalises to this name.
  predicate LastNamed(header: seq<Str>, norm: Str -> Str, name: Str, i: nat) {
    i < |header| && norm(header[i]) == name && forall j :: i < j < |header| ==> norm(header[j]) != name
  }

  lemma ColumnsSnoc(header: seq<Str>, norm: Str -> Str, name: Str)
    requires header != []
    ensures (var n := |header| - 1; var before, after := ColumnsOf(header[..n], norm), ColumnsOf(header, norm);
             if norm(header[n]) == name && (name in REQUIRED || name in OPTIONAL) then name in after && after[name] == n
             else (name in after <==> name in before) && (name in after ==> after[name] == before[name]))
  {
    hide REQUIRED, OPTIONAL;
  }

  lemma LastNamedSnoc(header: seq<Str>, norm: Str -> Str, name: Str, i: nat)
    requires header != []
    ensures (var n := |header| - 1;
             LastNamed(header, norm, name, i) <==>
               if norm(header[n]) == name then i == n else LastNamed(header[..n], norm, name, i))
  {
  }

  /** A known name is looked up in the last column whose header normalises to it, and an unknown one nowhere. */
  lemma {:induction false} ColumnsExactly(header: seq<Str>, norm: Str -> Str, name: Str)
    ensures (var columns := ColumnsOf(header, norm);
             && (name in columns <==> (name in REQUIRED || name in OPTIONAL) && exists i: nat :: LastNamed(header, norm, name, i))
             && (name in columns ==> LastNamed(header, norm, name, columns[name])))
  {
    hide ColumnsOf, REQUIRED, OPTIONAL, LastNamed;
    if header == [] {
      NoColumns(norm, name);
    } else {
      var n := |header| - 1;
      ColumnsExactly(header[..n], norm, name);
      ColumnsSnoc(header, norm, name);
      LastNamedSnoc(header, norm, name, n);
      forall i: nat
        ensures LastNamed(header, norm, name, i) <==> if norm(header[n]) == name then i == n else LastNamed(header[..n], norm, name, i)
      {
        LastNamedSnoc(header, norm, name, i);
      }
    }
  }

  lemma NoColumns(norm: Str -> Str, name: Str)
    ensures name !in ColumnsOf([], norm) && forall i: nat :: !LastNamed([], norm, name, i)
  {
  }

  /** The import stops at the first required name that no column has. */
  lemma {:induction false} FirstMissingExactly(required: seq<Str>, columns: Columns)
    ensures match FirstMissing(required, columns)
            case None => forall name <- required :: name in columns
            case Some(name) =>
              exists k :: 0 <= k < |required| && required[k] == name && name !in columns
                          && forall j :: 0 <= j < k ==> required[j] in columns
  {
    if required != [] && required[0] in columns {
      FirstMissingExactly(required[1..], columns);
      assert required == [required[0]] + required[1..];
      if FirstMissing(required, columns).Some? {
        var k :| 0 <= k < |required| - 1 && required[1..][k] == FirstMissing(required, columns).value
                 && forall j :: 0 <= j < k ==> required[1..][j] in columns;
        assert required[k + 1] == FirstMissing(required, columns).value;
        assert forall j :: 0 <= j < k + 1 ==> j == 0 || required[j] == required[1..][j - 1];
      }
    }
  }

  function GetCell(cells: seq<Str>, columns: Columns, key: Str): Option<Str> {
    if key in columns && columns[key] < |cells| then Some(cells[columns[key]]) else None
  }

  function Assessment(cells: seq<Str>, columns: Columns): Str {
    match GetCell(cells, columns, ASSESSMENT_NUMBER) case None => [] case Some(c) => Trim(c)
  }

  predicate AllBlank(cells: seq<Str>) { forall i :: 0 <= i < |cells| ==> Blank(cells[i]) }

  // The fate of one data row.
  datatype Fate<R> = Skipped | Good(row: R) | Bad(error: RowError)

  function FateOf<R>(cells: seq<Str>, r: nat, columns: Columns, check: (seq<Str>, Columns) -> Check<R>): Fate<R> {
    if AllBlank(cells) then Skipped
    else
      match check(cells, columns)
      case Accept(row) => Good(row)
      case Reject(message) =>
        var a := Assessment(cells, columns);
        Bad(RowError(r, if a != [] then Some(a) else None, message))
  }

  // The fates of data rows 1 to n - 1 of the grid.
  function Fates<R>(grid: Table, n: nat, columns: Columns, check: (seq<Str>, Columns) -> Check<R>): (fs: seq<Fate<R>>)
    requires 1 <= n <= |grid|
    ensures |fs| == n - 1
  {
    seq(n - 1, i requires 0 <= i < n - 1 => FateOf(grid[i + 1], i + 1, columns, check))
  }

  function Goods<R>(fs: seq<Fate<R>>): seq<R> {
    if fs == [] then []
    else
      var f := fs[|fs| - 1];
      Goods(fs[..|fs| - 1]) + (if f.Good? then [f.row] else [])
  }

  function Bads<R>(fs: seq<Fate<R>>): seq<RowError> {
    if fs == [] then []
    else
      var f := fs[|fs| - 1];
      Bads(fs[..|fs| - 1]) + (if f.Bad? then [f.error] else [])
  }

  function Skips<R>(fs: seq<Fate<R>>): nat {
    if fs == [] then 0 else Skips(fs[..|fs| - 1]) + if fs[|fs| - 1].Skipped? then 1 else 0
  }

  method ParseRatingRollCsv<R>(text: Str, norm: Str -> Str, check: (seq<Str>, Columns) -> Check<R>)
    returns (result: Roll<R>)
    ensures text == [] ==> result == EmptyText
    ensures text != [] && |Parsed(text)| < 2 ==> result == NoDataRows
    ensures text != [] && |Parsed(text)| >= 2 ==>
      var grid := Parsed(text);
      var columns := ColumnsOf(grid[0], norm);
      var missing := FirstMissing(REQUIRED, columns);
      var fates := Fates(grid, |grid|, columns, check);
      result == if missing.Some? then MissingHeader(missing.value) else Imported(Goods(fates), Bads(fates))
  {
    if |text| == 0 { return EmptyText; }
    var grid := ParseCsv(text);
    if |grid| < 2 { return NoDataRows; }
    var columns := ColumnsOf(grid[0], norm);
    var missing := FirstMissing(REQUIRED, columns);
    if missing.Some? { return MissingHeader(missing.value); }
    var rows: seq<R>, errors: seq<RowError> := [], [];
    for r := 1 to |grid|
      invariant rows == Goods(Fates(grid, r, columns, check))
      invariant errors == Bads(Fates(grid, r, columns, check))
    {
      var cells := grid[r];
      FatesSnoc(grid, r, columns, check);
      if AllBlank(cells) { continue; }
      var rawAssessment := Assessment(cells, columns);
      match check(cells, columns) {
        case Reject(message) =>
          errors := errors + [RowError(r, if rawAssessment != [] then Some(rawAssessment) else None, message)];
        case Accept(row) =>
          rows := rows + [row];
      }
    }
    return Imported(rows, errors);
  }

  lemma FatesSnoc<R>(grid: Table, r: nat, columns: Columns, check: (seq<Str>, Columns) -> Check<R>)
    requires 1 <= r < |grid|
    ensures var f := FateOf(grid[r], r, columns, check);
      && Goods(Fates(grid, r + 1, columns, check)) == Goods(Fates(grid, r, columns, check)) + (if f.Good? then [f.row] else [])
      && Bads(Fates(grid, r + 1, columns, check)) == Bads(Fates(grid, r, columns, check)) + (if f.Bad? then [f.error] else [])
  {
    var fs := Fates(grid, r + 1, columns, check);
    assert fs[..|fs| - 1] == Fates(grid, r, columns, check);
  }

  // Row i's result stands in its list right after the results of the rows before it.
  lemma {:induction false} LandsInPlace<R>(fs: seq<Fate<R>>, i: nat)
    requires i < |fs|
    ensures |Goods(fs[..i])| <= |Goods(fs)| && |Bads(fs[..i])| <= |Bads(fs)|
    ensures fs[i].Good? ==> |Goods(fs[..i])| < |Goods(fs)| && Goods(fs)[|Goods(fs[..i])|] == fs[i].row
    ensures fs[i].Bad? ==> |Bads(fs[..i])| < |Bads(fs)| && Bads(fs)[|Bads(fs[..i])|] == fs[i].error
  {
    var n := |fs| - 1;
    if i < n {
      assert fs[..n][..i] == fs[..i];
      LandsInPlace(fs[..n], i);
    }
  }

  lemma {:induction false} Counted<R>(fs: seq<Fate<R>>)
    ensures |Goods(fs)| + |Bads(fs)| + Skips(fs) == |fs|
  {
    if fs != [] { Counted(fs[..|fs| - 1]); }
  }

  lemma {:induction false} ErrorsAscend<R>(grid: Table, n: nat, columns: Columns, check: (seq<Str>, Columns) -> Check<R>)
    requires 1 <= n <= |grid|
    ensures var es := Bads(Fates(grid, n, columns, check));
      && (forall k :: 0 <= k < |es| ==> 1 <= es[k].row < n)
      && (forall k, l :: 0 <= k < l < |es| ==> es[k].row < es[l].row)
  {
    hide Fates, Bads, Goods, FateOf;
    if n == 1 {
      NoFates(grid, columns, check);
    } else {
      FatesSnoc(grid, n - 1, columns, check);
      ErrorsAscend(grid, n - 1, columns, check);
      ErrorNamesRow(grid[n - 1], n - 1, columns, check);
    }
  }

  lemma NoFates<R>(grid: Table, columns: Columns, check: (seq<Str>, Columns) -> Check<R>)
    requires grid != []
    ensures Bads(Fates(grid, 1, columns, check)) == []
  {
  }

  lemma ErrorNamesRow<R>(cells: seq<Str>, r: nat, columns: Columns, check: (seq<Str>, Columns) -> Check<R>)
    ensures var f := FateOf(cells, r, columns, check); f.Bad? ==> f.error.row == r
  {
  }

  /**
   Row accounting: each data row is skipped for being blank, or is accepted, or
   is reported, in source order; the numbers add up and error rows ascend.
   */
  lemma EveryRowAccounted<R>(grid: Table, columns: Columns, check: (seq<Str>, Columns) -> Check<R>, i: nat)
    requires 1 <= i < |grid|
    ensures var fs := Fates(grid, |grid|, columns, check);
      var rows, errors := Goods(fs), Bads(fs);
      && |rows| + |errors| + Skips(fs) == |grid| - 1
      && (fs[i - 1].Skipped? <==> AllBlank(grid[i]))
      && (fs[i - 1].Good? ==> fs[i - 1].row in rows)
      && (fs[i - 1].Bad? <==> exists e :: e in errors && e.row == i)
      && (forall k, l :: 0 <= k < l < |errors| ==> 1 <= errors[k].row < errors[l].row < |grid|)
  {
    hide Goods, Bads, Skips;
    var fs := Fates(grid, |grid|, columns, check);
    Counted(fs);
    ErrorsAscend(grid, |grid|, columns, check);
    LandsInPlace(fs, i - 1);
    if fs[i - 1].Bad? { assert fs[i - 1].error in Bads(fs) && fs[i - 1].error.row == i; }
    if e :| e in Bads(fs) && e.row == i { BadOnly(grid, |grid|, columns, check, e); }
  }

  lemma {:induction false} BadOnly<R>(grid: Table, n: nat, columns: Columns, check: (seq<Str>, Columns) -> Check<R>, e: RowError)
    requires 1 <= n <= |grid| && e in Bads(Fates(grid, n, columns, check))
    ensures 1 <= e.row < n && FateOf(grid[e.row], e.row, columns, check) == Bad(e)
  {
    if n > 1 {
      FatesSnoc(grid, n - 1, columns, check);
      if e in Bads(Fates(grid, n - 1, columns, check)) { BadOnly(grid, n - 1, columns, check, e); }
    }
  }
}
