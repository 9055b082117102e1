/**
 One data row of the rating roll: how its cells become the candidate that the row
 schema judges. Number parsing, upper case and the schema are the host's.
 */
module RatingRow {
  import opened Options
  import opened JsText
  import opened Csv
  import opened RatingRoll

  datatype Host<!N> = Host(
    number: Str -> Option<N>,  // Number(text); None when it is not finite
    upper: Str -> Str)         // toUpperCase

  const DOLLAR: Unit := 0x24

  predicate Dropped(u: Unit) { u == DOLLAR || u == COMMA || IsSpace(u) }

  function Left(u: Unit): Str { if Dropped(u) then [] else [u] }

  // `replace(/[$,\s]/g, "")`
  function Cleaned(s: Str): Str {
    if s == [] then [] else Left(s[0]) + Cleaned(s[1..])
  }

  // None is NaN.
  function Num<N>(host: Host<N>, cell: Option<Str>): Option<N> {
    match cell
    case None => None
    case Some(c) =>
      var trimmed := Trim(c);
      if trimmed == [] then None else host.number(Cleaned(trimmed))
  }

  // An optional cell counts as absent when it is blank.
  function Given(cell: Option<Str>): Option<Str> {
    if cell.Some? && Trim(cell.value) != [] then cell else None
  }

  function Trimmed(cell: Option<Str>): Str {
    match cell case None => [] case Some(c) => Trim(c)
  }

  function Unspaced(s: Str): Str {
    if s == [] then [] else (if IsSpace(s[0]) then [] else [s[0]]) + Unspaced(s[1..])
  }

  // What the row schema is given; an optional number that is there may still be NaN.
  datatype Candidate<N> = Candidate(
    assessmentNumber: Str, address: Str, suburb: Str, postcode: Str, state: Str, landUse: Str,
    valuation: Option<N>, annualRates: Option<N>, ownerName: Str,
    balance: Option<Option<N>>, ownerAbn: Option<Str>, lotPlan: Option<Str>,
    lat: Option<Option<N>>, lng: Option<Option<N>>)

  function OptionalNum<N>(host: Host<N>, cell: Option<Str>): Option<Option<N>> {
    if Given(cell).Some? then Some(Num(host, cell)) else None
  }

  function CandidateOf<N>(host: Host<N>, cells: seq<Str>, columns: Columns): Candidate<N> {
    Candidate(
      Assessment(cells, columns),
      Trimmed(GetCell(cells, columns, ADDRESS)),
      Trimmed(GetCell(cells, columns, SUBURB)),
      Trimmed(GetCell(cells, columns, POSTCODE)),
      host.upper(Trimmed(GetCell(cells, columns, STATE))),
      Trimmed(GetCell(cells, columns, LANDUSE)),
      Num(host, GetCell(cells, columns, VALUATION)),
      Num(host, GetCell(cells, columns, ANNUAL_RATES)),
      Trimmed(GetCell(cells, columns, OWNER_NAME)),
      OptionalNum(host, GetCell(cells, columns, BALANCE)),
      match Given(GetCell(cells, columns, OWNER_ABN)) { case None => None case Some(c) => Some(Trim(Unspaced(c))) },
      match Given(GetCell(cells, columns, LOT_PLAN)) { case None => None case Some(c) => Some(Trim(c)) },
      OptionalNum(host, GetCell(cells, columns, LAT)),
      OptionalNum(host, GetCell(cells, columns, LNG)))
  }

  // The cell in the column whose header has this name; none if there is no such column or the row is too short.
  ghost function CellNamed(header: seq<Str>, norm: Str -> Str, cells: seq<Str>, name: Str): Option<Str> {
    if i: nat :| LastNamed(header, norm, name, i) && i < |cells| then Some(cells[i]) else None
  }

  lemma CellIsNamed(header: seq<Str>, norm: Str -> Str, cells: seq<Str>, name: Str)
    requires name in REQUIRED || name in OPTIONAL
    ensures GetCell(cells, ColumnsOf(header, norm), name) == CellNamed(header, norm, cells, name)
  {
    ColumnsExactly(header, norm, name);
  }

  /** Each text field is read from the column whose header names it, the optional ones only if the cell is not blank. */
  lemma TextsByName<N>(host: Host<N>, header: seq<Str>, norm: Str -> Str, cells: seq<Str>)
    ensures (var c := CandidateOf(host, cells, ColumnsOf(header, norm));
             && c.assessmentNumber == Trimmed(CellNamed(header, norm, cells, ASSESSMENT_NUMBER))
             && c.address == Trimmed(CellNamed(header, norm, cells, ADDRESS))
             && c.suburb == Trimmed(CellNamed(header, norm, cells, SUBURB))
             && c.postcode == Trimmed(CellNamed(header, norm, cells, POSTCODE))
             && c.state == host.upper(Trimmed(CellNamed(header, norm, cells, STATE)))
             && c.landUse == Trimmed(CellNamed(header, norm, cells, LANDUSE))
             && c.ownerName == Trimmed(CellNamed(header, norm, cells, OWNER_NAME))
             && c.ownerAbn == (var cell := CellNamed(header, norm, cells, OWNER_ABN);
                               if Trimmed(cell) == [] then None else Some(Trim(Unspaced(cell.value))))
             && c.lotPlan == (var cell := CellNamed(header, norm, cells, LOT_PLAN);
                              if Trimmed(cell) == [] then None else Some(Trimmed(cell))))
  {
    hide TrimStart, TrimEnd, GetCell, ColumnsOf, CellNamed, IsSpace, Unspaced;
    NamedCells(header, norm, cells);
  }

  /** And so is each number. */
  lemma NumbersByName<N>(host: Host<N>, header: seq<Str>, norm: Str -> Str, cells: seq<Str>)
    ensures (var c := CandidateOf(host, cells, ColumnsOf(header, norm));
             && c.valuation == Num(host, CellNamed(header, norm, cells, VALUATION))
             && c.annualRates == Num(host, CellNamed(header, norm, cells, ANNUAL_RATES))
             && IsGiven(host, CellNamed(header, norm, cells, BALANCE), c.balance)
             && IsGiven(host, CellNamed(header, norm, cells, LAT), c.lat)
             && IsGiven(host, CellNamed(header, norm, cells, LNG), c.lng))
  {
    hide Num, TrimStart, TrimEnd, GetCell, ColumnsOf, CellNamed;
    NamedCells(header, norm, cells);
  }

  // An optional number is there exactly if its cell is, and is not blank.
  predicate IsGiven<N(==)>(host: Host<N>, cell: Option<Str>, n: Option<Option<N>>) {
    if Trimmed(cell) == [] then n == None else n == Some(Num(host, cell))
  }

  lemma NamedCells(header: seq<Str>, norm: Str -> Str, cells: seq<Str>)
    ensures forall name :: name in REQUIRED || name in OPTIONAL ==>
              GetCell(cells, ColumnsOf(header, norm), name) == CellNamed(header, norm, cells, name)
  {
    hide *;
    forall name | name in REQUIRED || name in OPTIONAL
      ensures GetCell(cells, ColumnsOf(header, norm), name) == CellNamed(header, norm, cells, name)
    {
      CellIsNamed(header, norm, cells, name);
    }
  }

  // The importer's check of a row.
  function RowCheck<N, R>(host: Host<N>, schema: Candidate<N> -> Check<R>): (seq<Str>, Columns) -> Check<R> {
    (cells: seq<Str>, columns: Columns) => schema(CandidateOf(host, cells, columns))
  }

  // ---------- numbers ----------

  lemma {:induction false} TrimStartClean(s: Str)
    ensures Cleaned(TrimStart(s)) == Cleaned(s)
    ensures TrimStart(s) == [] <==> Blank(s)
    ensures TrimStart(s) != [] ==> !IsSpace(TrimStart(s)[0])
  {
    hide IsSpace;
    if s != [] {
      assert Blank(s) <==> IsSpace(s[0]) && Blank(s[1..]) by { BlankRest(s); }
      TrimStartClean(s[1..]);
    }
  }

  lemma BlankRest(s: Str)
    requires s != []
    ensures Blank(s) <==> IsSpace(s[0]) && Blank(s[1..])
  {
    hide IsSpace;
    assert s == [s[0]] + s[1..];
  }

  lemma CleanedFirst(u: Unit, rest: Str)
    ensures Cleaned([u] + rest) == Left(u) + Cleaned(rest)
  {
    hide Dropped;
    assert ([u] + rest)[1..] == rest;
  }

  lemma Assoc(a: Str, b: Str, c: Str)
    ensures a + b + c == a + (b + c)
  {
  }

  lemma {:induction false} CleanedEnd(s: Str, u: Unit)
    ensures Cleaned(s + [u]) == Cleaned(s) + Left(u)
    decreases |s|
  {
    if s == [] {
      CleanedFirst(u, []);
      assert [] + [u] == [u] + [] && Left(u) + [] == [] + Left(u);
      hide Left, Dropped;
    } else {
      hide Left, Cleaned;
      var c, rest := s[0], s[1..];
      assert s == [c] + rest;
      Assoc([c], rest, [u]);
      CleanedFirst(c, rest + [u]);
      CleanedFirst(c, rest);
      CleanedEnd(rest, u);
      Assoc(Left(c), Cleaned(rest), Left(u));
    }
  }

  lemma {:induction false} TrimEndClean(s: Str)
    ensures Cleaned(TrimEnd(s)) == Cleaned(s)
    ensures s != [] && !IsSpace(s[0]) ==> TrimEnd(s) != []
  {
    hide IsSpace;
    if s != [] && IsSpace(s[|s| - 1]) {
      TrimEndClean(s[..|s| - 1]);
      assert s == s[..|s| - 1] + [s[|s| - 1]];
      CleanedEnd(s[..|s| - 1], s[|s| - 1]);
    }
  }

  lemma {:induction false} CleanedNothing(s: Str)
    ensures Cleaned(s) == [] <==> forall u <- s :: Dropped(u)
  {
    hide Dropped;
    if s != [] {
      var u, rest := s[0], s[1..];
      CleanedNothing(rest);
      assert s == [u] + rest;
      assert forall v :: v in s <==> v == u || v in rest;
    }
  }

  /**
   A cell is read by its text without currency signs, commas and white space,
   unless it is missing or blank.
   */
  lemma NumReads<N>(host: Host<N>, c: Str)
    ensures Num(host, Some(c)) == if Blank(c) then None else host.number(Cleaned(c))
  {
    hide Blank, IsSpace, Cleaned, TrimStart, TrimEnd;
    TrimStartClean(c);
    TrimEndClean(TrimStart(c));
    EmptyTrim();
  }

  lemma EmptyTrim()
    ensures TrimEnd([]) == []
  {
  }

  /**
   So a cell of currency signs and commas alone is not NaN, as the comment on
   `num` has it, but what the host reads the empty text as, and that is zero.
   */
  lemma SymbolsAreNoText<N>(host: Host<N>, c: Str)
    requires forall u <- c :: Dropped(u)
    ensures Num(host, Some(c)) == if Blank(c) then None else host.number([])
  {
    hide Dropped, Blank;
    CleanedNothing(c);
    NumReads(host, c);
  }

  lemma {:induction false} CleanedJoin(a: Str, b: Str)
    ensures Cleaned(a + b) == Cleaned(a) + Cleaned(b)
  {
    if a == [] {
      assert a + b == b;
    } else {
      hide Left;
      assert (a + b)[1..] == a[1..] + b;
      CleanedJoin(a[1..], b);
    }
  }

  /** Unit by unit, what counts of a number: all but currency signs, commas and white space. */
  lemma CleanedExactly(a: Str, u: Unit, b: Str)
    ensures Cleaned(a + [u] + b)
         == Cleaned(a) + (if u == '$' as int || u == ',' as int || IsSpace(u) then [] else [u]) + Cleaned(b)
  {
    hide IsSpace;
    CleanedEnd(a, u);
    CleanedJoin(a + [u], b);
  }

  lemma {:induction false} UnspacedJoin(a: Str, b: Str)
    ensures Unspaced(a + b) == Unspaced(a) + Unspaced(b)
  {
    hide IsSpace;
    if a == [] {
      assert a + b == b;
    } else {
      assert (a + b)[1..] == a[1..] + b;
      UnspacedJoin(a[1..], b);
    }
  }

  /** And of a business number: all but white space. */
  lemma UnspacedExactly(a: Str, u: Unit, b: Str)
    ensures Unspaced(a + [u] + b) == Unspaced(a) + (if IsSpace(u) then [] else [u]) + Unspaced(b)
  {
    hide IsSpace;
    UnspacedJoin(a, [u]);
    UnspacedJoin(a + [u], b);
    assert [u][1..] == [];
  }

  // ---------- extra columns ----------

  lemma CellKept(cells: seq<Str>, extra: seq<Str>, columns: Columns, key: Str)
    requires key in columns ==> columns[key] < |cells|
    ensures GetCell(cells + extra, columns, key) == GetCell(cells, columns, key)
  {
  }

  /** Cells beyond the known columns never change what a row becomes, except that they keep a blank row from being skipped. */
  lemma ExtraCellsIgnored<N, R>(host: Host<N>, schema: Candidate<N> -> Check<R>, cells: seq<Str>, extra: seq<Str>,
                                columns: Columns, r: nat)
    requires forall key <- columns :: columns[key] < |cells|
    ensures (var check := RowCheck(host, schema);
             var before, after := FateOf(cells, r, columns, check), FateOf(cells + extra, r, columns, check);
             if AllBlank(cells) then after.Skipped? <==> AllBlank(extra) else after == before)
  {
    hide Blank, GetCell;
    forall key ensures GetCell(cells + extra, columns, key) == GetCell(cells, columns, key) {
      CellKept(cells, extra, columns, key);
    }
    assert CandidateOf(host, cells + extra, columns) == CandidateOf(host, cells, columns);
    AllBlankJoined(cells, extra);
  }

  lemma AllBlankJoined(a: seq<Str>, b: seq<Str>)
    ensures AllBlank(a + b) <==> AllBlank(a) && AllBlank(b)
  {
    hide Blank;
    assert forall i :: 0 <= i < |a| ==> (a + b)[i] == a[i];
    assert forall i :: 0 <= i < |b| ==> (a + b)[|a| + i] == b[i];
  }
}
