/**
 The CSV writer (`toCsv`), and what the scanner reads back of what it wrote: all of
 it, up to the trailing blank rows of a one-column table.
 */
module CsvRoundTrip {
  import opened JsText
  import opened Csv
  import opened Sequences

  // ---------- the writer ----------

  // A value of a record: missing, null, or anything else, given by its text
  // (ISO date, JSON of an object, `String(v)`).
  datatype Cell = Undefined | Null | Shown(text: Str)

  // One row object, its keys in insertion order.
  type Record = seq<(Str, Cell)>

  function Coerce(v: Cell): Str {
    match v case Undefined => [] case Null => [] case Shown(text) => text
  }

  function Get(rec: Record, key: Str): Cell {
    if rec == [] then Undefined else if rec[0].0 == key then rec[0].1 else Get(rec[1..], key)
  }

  // Keys of a record not seen yet, in insertion order, after those already known.
  function AddKeys(headers: seq<Str>, rec: Record): seq<Str>
    decreases |rec|
  {
    if rec == [] then headers
    else AddKeys(if rec[0].0 in headers then headers else headers + [rec[0].0], rec[1..])
  }

  function AddAllKeys(headers: seq<Str>, rows: seq<Record>): seq<Str>
    decreases |rows|
  {
    if rows == [] then headers else AddAllKeys(AddKeys(headers, rows[0]), rows[1..])
  }

  function Headers(rows: seq<Record>): seq<Str> { AddAllKeys([], rows) }

  function DataRow(headers: seq<Str>, rec: Record): (r: seq<Str>)
    ensures |r| == |headers|
  {
    seq(|headers|, i requires 0 <= i < |headers| => Coerce(Get(rec, headers[i])))
  }

  // The table a list of records stands for: the header row, then one row a record.
  function Grid(rows: seq<Record>): Table {
    if rows == [] then []
    else [Headers(rows)] + seq(|rows|, i requires 0 <= i < |rows| => DataRow(Headers(rows), rows[i]))
  }

  function Double(s: Str): Str {
    if s == [] then [] else (if s[0] == QUOTE then [QUOTE, QUOTE] else [s[0]]) + Double(s[1..])
  }

  function QuoteField(s: Str): Str { [QUOTE] + Double(s) + [QUOTE] }

  function Join(parts: seq<Str>, sep: Str): Str {
    if parts == [] then [] else if |parts| == 1 then parts[0] else parts[0] + sep + Join(parts[1..], sep)
  }

  function Quoted(cells: seq<Str>): (q: seq<Str>)
    ensures |q| == |cells|
  {
    seq(|cells|, i requires 0 <= i < |cells| => QuoteField(cells[i]))
  }

  function Line(cells: seq<Str>): Str { Join(Quoted(cells), [COMMA]) }

  function LinesOf(grid: Table): (ls: seq<Str>)
    ensures |ls| == |grid|
  {
    seq(|grid|, i requires 0 <= i < |grid| => Line(grid[i]))
  }

  function Written(rows: seq<Record>): Str {
    if rows == [] then [] else Join(LinesOf(Grid(rows)), CRLF) + CRLF
  }

  predicate HasKey(rec: Record, key: Str) { exists i :: 0 <= i < |rec| && rec[i].0 == key }

  lemma {:induction false} AddKeysExact(headers: seq<Str>, rec: Record, key: Str)
    requires Distinct(headers)
    ensures Distinct(AddKeys(headers, rec)) && headers <= AddKeys(headers, rec)
    ensures key in AddKeys(headers, rec) <==> key in headers || HasKey(rec, key)
    decreases |rec|
  {
    if rec != [] {
      var next := if rec[0].0 in headers then headers else headers + [rec[0].0];
      AddKeysExact(next, rec[1..], key);
      assert HasKey(rec, key) <==> rec[0].0 == key || HasKey(rec[1..], key) by {
        if HasKey(rec, key) {
          var i :| 0 <= i < |rec| && rec[i].0 == key;
          if i > 0 { assert rec[1..][i - 1].0 == key; }
        }
        if HasKey(rec[1..], key) {
          var i :| 0 <= i < |rec[1..]| && rec[1..][i].0 == key;
          assert rec[i + 1].0 == key;
        }
      }
    }
  }

  lemma {:induction false} AddAllKeysExact(headers: seq<Str>, rows: seq<Record>, key: Str)
    requires Distinct(headers)
    ensures Distinct(AddAllKeys(headers, rows)) && headers <= AddAllKeys(headers, rows)
    ensures key in AddAllKeys(headers, rows) <==> key in headers || exists r :: r in rows && HasKey(r, key)
    decreases |rows|
  {
    if rows != [] {
      AddKeysExact(headers, rows[0], key);
      AddAllKeysExact(AddKeys(headers, rows[0]), rows[1..], key);
      assert forall r :: r in rows <==> r == rows[0] || r in rows[1..] by {
        assert rows == [rows[0]] + rows[1..];
      }
    }
  }

  lemma {:induction false} AddAllKeysSplit(headers: seq<Str>, a: seq<Record>, b: seq<Record>)
    ensures AddAllKeys(headers, a + b) == AddAllKeys(AddAllKeys(headers, a), b)
    decreases |a|
  {
    if a == [] {
      assert a + b == b;
    } else {
      assert (a + b)[1..] == a[1..] + b;
      AddAllKeysSplit(AddKeys(headers, a[0]), a[1..], b);
    }
  }

  /** The header row is the union of the keys, each once; later records only append to it. */
  lemma HeadersAreTheKeys(rows: seq<Record>, more: seq<Record>, key: Str)
    ensures Distinct(Headers(rows)) && Headers(rows) <= Headers(rows + more)
    ensures key in Headers(rows) <==> exists r :: r in rows && HasKey(r, key)
  {
    AddAllKeysExact([], rows, key);
    AddAllKeysSplit([], rows, more);
    AddAllKeysExact(Headers(rows), more, key);
  }

  // ---------- which value goes where ----------

  predicate OwnKeys(rec: Record) { forall i, j :: 0 <= i < j < |rec| ==> rec[i].0 != rec[j].0 }

  lemma {:induction false} GetOwn(rec: Record, i: nat)
    requires OwnKeys(rec) && i < |rec|
    ensures Get(rec, rec[i].0) == rec[i].1
  {
    if i > 0 { GetOwn(rec[1..], i - 1); }
  }

  lemma {:induction false} GetMissing(rec: Record, key: Str)
    requires forall i :: 0 <= i < |rec| ==> rec[i].0 != key
    ensures Get(rec, key).Undefined?
  {
    if rec != [] { GetMissing(rec[1..], key); }
  }

  /**
   Under header c, record r has the text of its own value for that key, and
   nothing if it has no such key or the value is undefined or null.
   */
  lemma CellsInPlace(rows: seq<Record>, r: nat, c: nat)
    requires r < |rows| && OwnKeys(rows[r]) && c < |Headers(rows)|
    ensures |Grid(rows)| == |rows| + 1 && Grid(rows)[0] == Headers(rows) && |Grid(rows)[r + 1]| == |Headers(rows)|
    ensures forall i :: 0 <= i < |rows[r]| && rows[r][i].0 == Headers(rows)[c] ==>
              (match rows[r][i].1
               case Shown(text) => Grid(rows)[r + 1][c] == text
               case _ => Grid(rows)[r + 1][c] == [])
    ensures (forall i :: 0 <= i < |rows[r]| ==> rows[r][i].0 != Headers(rows)[c]) ==> Grid(rows)[r + 1][c] == []
  {
    hide Get, Headers;
    var key := Headers(rows)[c];
    assert Grid(rows)[r + 1][c] == Coerce(Get(rows[r], key));
    forall i | 0 <= i < |rows[r]| && rows[r][i].0 == key ensures Get(rows[r], key) == rows[r][i].1 { GetOwn(rows[r], i); }
    if forall i :: 0 <= i < |rows[r]| ==> rows[r][i].0 != key { GetMissing(rows[r], key); }
  }

  // Where in the list, and before what.
  ghost predicate InThisOrder(headers: seq<Str>, k: Str, l: Str) {
    exists a, b :: 0 <= a < b < |headers| && headers[a] == k && headers[b] == l
  }

  lemma LastInOrder(headers: seq<Str>, more: seq<Str>, k: Str, l: Str)
    requires k in headers && l !in headers && headers <= more && l in more
    ensures InThisOrder(more, k, l)
  {
    var a :| 0 <= a < |headers| && headers[a] == k;
    var b :| 0 <= b < |more| && more[b] == l;
    assert forall j :: 0 <= j < |headers| ==> more[j] == headers[j];
    assert more[a] == k;
  }

  /** New keys of a record become headers in the record's own order, after all that were there. */
  lemma {:induction false} NewKeysInOrder(headers: seq<Str>, rec: Record, i: nat, j: nat)
    requires Distinct(headers) && OwnKeys(rec) && i < j < |rec| && rec[j].0 !in headers
    ensures InThisOrder(AddKeys(headers, rec), rec[i].0, rec[j].0)
    decreases |rec|
  {
    hide InThisOrder;
    var next := if rec[0].0 in headers then headers else headers + [rec[0].0];
    if i == 0 {
      AddKeysExact(next, rec[1..], rec[j].0);
      assert rec[1..][j - 1] == rec[j];
      LastInOrder(next, AddKeys(next, rec[1..]), rec[0].0, rec[j].0);
    } else {
      assert rec[1..][i - 1] == rec[i] && rec[1..][j - 1] == rec[j];
      NewKeysInOrder(next, rec[1..], i - 1, j - 1);
    }
  }

  method ToCsv(rows: seq<Record>) returns (text: Str)
    ensures text == Written(rows)
  {
    if |rows| == 0 { return []; }
    hide Line, DataRow, Join, LinesOf, Grid;
    var headers: seq<Str> := [];
    var seen: set<Str> := {};
    for i := 0 to |rows|
      invariant seen == (set h | h in headers)
      invariant AddAllKeys(headers, rows[i..]) == Headers(rows)
    {
      var row := rows[i];
      assert rows[i..][1..] == rows[i + 1..];
      for j := 0 to |row|
        invariant seen == (set h | h in headers)
        invariant AddAllKeys(AddKeys(headers, row[j..]), rows[i + 1..]) == Headers(rows)
      {
        assert row[j..][1..] == row[j + 1..];
        var k := row[j].0;
        if k !in seen {
          seen := seen + {k};
          headers := headers + [k];
        }
      }
    }
    var lines := [Line(headers)];
    HeaderLine(rows);
    for i := 0 to |rows|
      invariant lines == LinesUpTo(rows, i)
    {
      RowLine(rows, i);
      lines := lines + [Line(DataRow(headers, rows[i]))];
    }
    AllLines(rows);
    text := Join(lines, CRLF) + CRLF;
  }

  // The header line and the lines of the first n records.
  function LinesUpTo(rows: seq<Record>, n: nat): seq<Str>
    requires n <= |rows| && rows != []
  {
    LinesOf(Grid(rows)[..n + 1])
  }

  lemma HeaderLine(rows: seq<Record>)
    requires rows != []
    ensures LinesUpTo(rows, 0) == [Line(Headers(rows))]
  {
    hide Line, Headers, DataRow;
  }

  lemma RowLine(rows: seq<Record>, n: nat)
    requires n < |rows|
    ensures LinesUpTo(rows, n + 1) == LinesUpTo(rows, n) + [Line(DataRow(Headers(rows), rows[n]))]
  {
    hide Line, Headers, DataRow;
  }

  lemma AllLines(rows: seq<Record>)
    requires rows != []
    ensures LinesUpTo(rows, |rows|) == LinesOf(Grid(rows))
  {
    hide Line, Headers, DataRow;
    assert Grid(rows)[..|rows| + 1] == Grid(rows);
  }

  // ---------- the scanner undoes the writer ----------

  lemma {:induction false} ScanQuoted(f: Str, cell: Str, cur: seq<Str>, after: Str)
    requires after != [] && after[0] != QUOTE
    ensures Scan(Double(f) + ([QUOTE] + after), cell, cur, true) == Scan(after, cell + f, cur, false)
    decreases |f|
  {
    var rest := [QUOTE] + after;
    if f == [] {
      assert Double(f) + rest == rest && rest[1..] == after;
      assert cell + f == cell;
    } else {
      var tail := Double(f[1..]) + rest;
      assert cell + [f[0]] + f[1..] == cell + f;
      if f[0] == QUOTE {
        assert Double(f) + rest == [QUOTE, QUOTE] + tail && ([QUOTE, QUOTE] + tail)[2..] == tail;
      } else {
        assert Double(f) + rest == [f[0]] + tail && ([f[0]] + tail)[1..] == tail;
      }
      ScanQuoted(f[1..], cell + [f[0]], cur, after);
    }
  }

  lemma ScanField(f: Str, cur: seq<Str>, after: Str)
    requires after != [] && after[0] != QUOTE
    ensures Scan(QuoteField(f) + after, [], cur, false) == Scan(after, f, cur, false)
  {
    var body := Double(f) + ([QUOTE] + after);
    assert QuoteField(f) + after == [QUOTE] + body;
    assert ([QUOTE] + body)[1..] == body;
    ScanQuoted(f, [], cur, after);
    assert [] + f == f;
  }

  lemma {:induction false} ScanLine(cells: seq<Str>, cur: seq<Str>, rest: Str)
    requires cells != []
    ensures Scan(Line(cells) + (CRLF + rest), [], cur, false) == [cur + cells] + Scan(rest, [], [], false)
    decreases |cells|
  {
    hide Scan, QuoteField;
    var f, more := cells[0], cells[1..];
    assert Quoted(cells)[1..] == Quoted(more);
    if more == [] {
      assert Line(cells) == QuoteField(f);
      ScanField(f, cur, CRLF + rest);
      ScanLineEnd(f, cur, rest);
      assert cur + [f] == cur + cells;
    } else {
      var after := Line(more) + (CRLF + rest);
      assert Line(cells) == QuoteField(f) + [COMMA] + Line(more);
      assert Line(cells) + (CRLF + rest) == QuoteField(f) + ([COMMA] + after);
      ScanField(f, cur, [COMMA] + after);
      ScanComma(f, cur, after);
      ScanLine(more, cur + [f], rest);
      assert cur + [f] + more == cur + cells;
    }
  }

  lemma ScanComma(f: Str, cur: seq<Str>, rest: Str)
    ensures Scan([COMMA] + rest, f, cur, false) == Scan(rest, [], cur + [f], false)
  {
    assert ([COMMA] + rest)[1..] == rest;
  }

  lemma ScanLineEnd(f: Str, cur: seq<Str>, rest: Str)
    ensures Scan(CRLF + rest, f, cur, false) == [cur + [f]] + Scan(rest, [], [], false)
  {
    assert (CRLF + rest)[2..] == rest;
  }

  lemma {:induction false} ScanLines(grid: Table)
    requires grid != [] && forall i :: 0 <= i < |grid| ==> grid[i] != []
    ensures Scan(Join(LinesOf(grid), CRLF) + CRLF, [], [], false) == grid
    decreases |grid|
  {
    var row, more := grid[0], grid[1..];
    assert LinesOf(grid)[1..] == LinesOf(more);
    if more == [] {
      assert Join(LinesOf(grid), CRLF) + CRLF == Line(row) + (CRLF + []);
      ScanLine(row, [], []);
      assert [] + row == row;
    } else {
      var tail := Join(LinesOf(more), CRLF) + CRLF;
      assert Join(LinesOf(grid), CRLF) + CRLF == Line(row) + (CRLF + tail);
      ScanLine(row, [], tail);
      assert [] + row == row;
      ScanLines(more);
      assert grid == [row] + more;
    }
  }

  // With no columns every line is empty, and is read as one empty cell.
  function EmptyLines(n: nat): seq<Str> { seq(n, _ => []) }

  function EmptyRows(n: nat): Table { seq(n, _ => [[]]) }

  lemma ScanEmptyLine(rest: Str)
    ensures Scan(CRLF + rest, [], [], false) == [[[]]] + Scan(rest, [], [], false)
  {
    var text := CRLF + rest;
    assert text[2..] == rest;
    var cell: Str, cur: seq<Str> := [], [];
    assert cur + [cell] == [[]];
  }

  lemma {:induction false} NoColumns(n: nat)
    ensures Scan(Join(EmptyLines(n + 1), CRLF) + CRLF, [], [], false) == EmptyRows(n + 1)
  {
    var text := Join(EmptyLines(n + 1), CRLF) + CRLF;
    if n == 0 {
      assert text == CRLF + [];
      ScanEmptyLine([]);
    } else {
      var tail := Join(EmptyLines(n), CRLF) + CRLF;
      assert EmptyLines(n + 1)[1..] == EmptyLines(n);
      assert text == CRLF + tail;
      ScanEmptyLine(tail);
      NoColumns(n - 1);
      assert EmptyRows(n + 1) == EmptyRows(1) + EmptyRows(n);
    }
  }

  lemma FirstIsQuote(rows: seq<Record>)
    requires rows != [] && Headers(rows) != []
    ensures StripBom(Written(rows)) == Written(rows)
  {
  }

  // Whether the scanner keeps every row of the table.
  predicate KeepsAll(rows: seq<Record>) {
    rows == [] || |Headers(rows)| >= 2 || (|Headers(rows)| == 1 && !Blank(DataRow(Headers(rows), rows[|rows| - 1])[0]))
  }

  /**
   The scanner reads back the header row and the coerced rows, whatever the
   cells hold, save for trailing blank rows of a one-column table.
   */
  lemma RoundTrip(rows: seq<Record>)
    ensures Headers(rows) != [] ==> Parsed(Written(rows)) == StripTrailing(Grid(rows))
    ensures Parsed(Written(rows)) == Grid(rows) <==> KeepsAll(rows)
  {
    if rows != [] && Headers(rows) == [] {
      NoColumnsRead(rows);
    } else if rows != [] {
      hide Parsed, Written, Headers, KeepsAll, StripTrailing;
      RowsRead(rows);
      NothingStripped(rows);
    }
  }

  lemma NothingStripped(rows: seq<Record>)
    requires rows != [] && Headers(rows) != []
    ensures StripTrailing(Grid(rows)) == Grid(rows) <==> KeepsAll(rows)
  {
    hide Headers, Blank, DataRow;
    var grid := Grid(rows);
    assert grid[|grid| - 1] == DataRow(Headers(rows), rows[|rows| - 1]);
  }

  lemma NoColumnsRead(rows: seq<Record>)
    requires rows != [] && Headers(rows) == []
    ensures Parsed(Written(rows)) != Grid(rows)
  {
    NoColumnsWritten(rows);
    hide Scan, Headers, Blank, Join, Written;
    NoColumns(|rows|);
    assert Grid(rows)[0] == [];
  }

  lemma NoColumnsWritten(rows: seq<Record>)
    requires rows != [] && Headers(rows) == []
    ensures Written(rows) == Join(EmptyLines(|rows| + 1), CRLF) + CRLF
    ensures StripBom(Written(rows)) == Written(rows)
  {
    hide Headers;
    assert LinesOf(Grid(rows)) == EmptyLines(|rows| + 1);
    assert Join(EmptyLines(|rows| + 1), CRLF)[0] == CR;
  }

  lemma RowsRead(rows: seq<Record>)
    requires rows != [] && Headers(rows) != []
    ensures Parsed(Written(rows)) == StripTrailing(Grid(rows))
  {
    hide Scan, Headers;
    FirstIsQuote(rows);
    ScanLines(Grid(rows));
  }

  lemma OneRecord(rec: Record)
    ensures Headers([rec]) == AddKeys([], rec)
  {
    var rows: seq<Record> := [rec];
    assert rows[1..] == [] && AddAllKeys(AddKeys([], rec), []) == AddKeys([], rec);
  }

  lemma TwoColumns(k: Str, l: Str, x: Str)
    requires k != l
    ensures Grid([[(k, Shown(x)), (l, Null)]]) == [[k, l], [x, []]]
  {
    var rec: Record := [(k, Shown(x)), (l, Null)];
    assert rec[1..] == [(l, Null)] && [(l, Null)][1..] == [] && [rec][1..] == [];
    assert [] + [k] == [k] && [k] + [l] == [k, l];
    assert AddKeys([], rec) == AddKeys([k], rec[1..]) == AddKeys([k, l], []) == [k, l];
    OneRecord(rec);
    assert Get(rec, k) == Shown(x) && Get(rec, l) == Get(rec[1..], l) == Null;
    assert DataRow([k, l], rec) == [x, []];
  }

  lemma TwoLines(a: Str, b: Str, c: Str, d: Str)
    ensures Join(LinesOf([[a, b], [c, d]]), CRLF) + CRLF
         == QuoteField(a) + [COMMA] + QuoteField(b) + CRLF + QuoteField(c) + [COMMA] + QuoteField(d) + CRLF
  {
    hide QuoteField;
    TwoFields(a, b);
    TwoFields(c, d);
    var ls := LinesOf([[a, b], [c, d]]);
    assert ls[1..] == [Line([c, d])];
  }

  lemma TwoFields(a: Str, b: Str)
    ensures Line([a, b]) == QuoteField(a) + [COMMA] + QuoteField(b)
  {
    hide QuoteField;
    assert Quoted([a, b]) == [QuoteField(a), QuoteField(b)];
    assert Quoted([a, b])[1..] == [QuoteField(b)];
    assert Join([QuoteField(b)], [COMMA]) == QuoteField(b);
  }

  lemma Fields()
    ensures QuoteField([0x61]) == [0x22, 0x61, 0x22] && QuoteField([0x62]) == [0x22, 0x62, 0x22]
    ensures QuoteField([]) == [0x22, 0x22]
    ensures QuoteField([0x78, 0x22, 0x79]) == [0x22, 0x78, 0x22, 0x22, 0x79, 0x22]
  {
    var x: Str := [0x78, 0x22, 0x79];
    assert x[1..] == [0x22, 0x79] && x[1..][1..] == [0x79] && [0x79][1..] == [];
    assert Double([0x79]) == [0x79] && Double([0x22, 0x79]) == [0x22, 0x22, 0x79];
    assert [0x61][1..] == [] && [0x62][1..] == [];
  }

  /** What the text looks like: every field in quotes, quotes in it doubled, commas between, CR LF after each line. */
  lemma SmallTable()
    ensures Written([[([0x61], Shown([0x78, 0x22, 0x79])), ([0x62], Null)]])
         == Ascii("\"a\",\"b\"\r\n\"x\"\"y\",\"\"\r\n")
  {
    hide QuoteField, Grid, Join, LinesOf;
    TwoColumns([0x61], [0x62], [0x78, 0x22, 0x79]);
    TwoLines([0x61], [0x62], [0x78, 0x22, 0x79], []);
    Fields();
  }
}
