/**
 The hand-written CSV scanner (`parseCsv`): a character loop that knows whether it
 is between quotes, collects cells and rows, and drops trailing blank rows.
 Quoting follows section 2 of RFC 4180.
 */
module Csv {
  import opened JsText

  const CR: Unit := 0x0D
  const LF: Unit := 0x0A
  const BOM: Unit := 0xFEFF
  const CRLF: Str := [CR, LF]

  type Table = seq<seq<Str>>

  // The characters that `trim` removes: ECMAScript white space and line terminators.
  predicate IsSpace(u: Unit) {
    || 0x09 <= u <= 0x0D || u == 0x20 || u == 0xA0 || u == 0x1680 || 0x2000 <= u <= 0x200A
    || u == 0x2028 || u == 0x2029 || u == 0x202F || u == 0x205F || u == 0x3000 || u == BOM
  }

  /** The code points of ECMAScript's white space and line terminators, in decimal. */
  lemma SpacesAre(u: Unit)
    ensures IsSpace(u) <==> u in [9, 10, 11, 12, 13, 32, 160, 5760, 8192, 8193, 8194, 8195, 8196, 8197, 8198, 8199,
                                  8200, 8201, 8202, 8232, 8233, 8239, 8287, 12288, 65279]
  {
  }

  // A cell that is empty once trimmed.
  predicate Blank(s: Str) { forall i :: 0 <= i < |s| ==> IsSpace(s[i]) }

  // ---------- the scanner ----------

  function Tail(cell: Str, cur: seq<Str>): Table {
    if cell != [] || cur != [] then [cur + [cell]] else []
  }

  // The rows the scanner still produces from the rest of the text, in the state it is in.
  function Scan(text: Str, cell: Str, cur: seq<Str>, inQuotes: bool): Table
    decreases |text|
  {
    if text == [] then Tail(cell, cur)
    else
      var c := text[0];
      if inQuotes then
        if c != QUOTE then Scan(text[1..], cell + [c], cur, true)
        else if |text| > 1 && text[1] == QUOTE then Scan(text[2..], cell + [QUOTE], cur, true)
        else Scan(text[1..], cell, cur, false)
      else if c == QUOTE then Scan(text[1..], cell, cur, true)
      else if c == COMMA then Scan(text[1..], [], cur + [cell], false)
      else if c == CR then
        [cur + [cell]] + Scan(text[if |text| > 1 && text[1] == LF then 2 else 1..], [], [], false)
      else if c == LF then [cur + [cell]] + Scan(text[1..], [], [], false)
      else Scan(text[1..], cell + [c], cur, false)
  }

  function StripBom(text: Str): Str {
    if text != [] && text[0] == BOM then text[1..] else text
  }

  predicate BlankRow(row: seq<Str>) { |row| == 1 && Blank(row[0]) }

  function StripTrailing(rows: Table): (r: Table)
    ensures r <= rows && (r != [] ==> !BlankRow(r[|r| - 1]))
    ensures forall i :: |r| <= i < |rows| ==> BlankRow(rows[i])
  {
    if rows != [] && BlankRow(rows[|rows| - 1]) then StripTrailing(rows[..|rows| - 1]) else rows
  }

  function Parsed(text: Str): Table { StripTrailing(Scan(StripBom(text), [], [], false)) }

  /** One byte order mark at the start is not part of the table. */
  lemma MarkIgnored(t: Str)
    ensures Parsed([BOM] + t) == if t != [] && t[0] == BOM then StripTrailing(Scan(t, [], [], false)) else Parsed(t)
  {
    hide Scan, StripTrailing;
    assert ([BOM] + t)[1..] == t;
  }

  // One turn of the scanning loop, at position i of the source.
  lemma ScanAt(src: Str, i: nat, cell: Str, cur: seq<Str>, inQuotes: bool)
    requires i < |src|
    ensures var c, paired := src[i], i + 1 < |src| && src[i + 1] == QUOTE;
      Scan(src[i..], cell, cur, inQuotes) ==
        if inQuotes then
          if c != QUOTE then Scan(src[i + 1..], cell + [c], cur, true)
          else if paired then Scan(src[i + 2..], cell + [QUOTE], cur, true)
          else Scan(src[i + 1..], cell, cur, false)
        else if c == QUOTE then Scan(src[i + 1..], cell, cur, true)
        else if c == COMMA then Scan(src[i + 1..], [], cur + [cell], false)
        else if c == CR && i + 1 < |src| && src[i + 1] == LF then [cur + [cell]] + Scan(src[i + 2..], [], [], false)
        else if c == CR || c == LF then [cur + [cell]] + Scan(src[i + 1..], [], [], false)
        else Scan(src[i + 1..], cell + [c], cur, false)
  {
  }

  lemma ScanEnd(rest: Str, cell: Str, cur: seq<Str>, inQuotes: bool)
    requires rest == []
    ensures Scan(rest, cell, cur, inQuotes) == Tail(cell, cur)
  {
  }

  lemma AppendRow(rows: Table, row: seq<Str>, rest: Table)
    ensures rows + ([row] + rest) == rows + [row] + rest
  {
  }

  lemma StripStep(rows: Table)
    ensures StripTrailing(rows)
         == if rows != [] && BlankRow(rows[|rows| - 1]) then StripTrailing(rows[..|rows| - 1]) else rows
  {
  }

  method ParseCsv(text: Str) returns (rows: Table)
    ensures rows == Parsed(text)
  {
    var src := StripBom(text);
    hide Scan, StripTrailing;
    rows := [];
    var cur: seq<Str>, cell: Str := [], [];
    var i, inQuotes := 0, false;
    assert src[0..] == src;
    while i < |src|
      invariant 0 <= i <= |src|
      invariant rows + Scan(src[i..], cell, cur, inQuotes) == Scan(src, [], [], false)
    {
      var c := src[i];
      ScanAt(src, i, cell, cur, inQuotes);
      AppendRow(rows, cur + [cell], Scan(src[i + 1..], [], [], false));
      if i + 1 < |src| { AppendRow(rows, cur + [cell], Scan(src[i + 2..], [], [], false)); }
      if inQuotes {
        if c == QUOTE {
          if i + 1 < |src| && src[i + 1] == QUOTE {
            cell, i := cell + [QUOTE], i + 2;
            continue;
          }
          inQuotes, i := false, i + 1;
          continue;
        }
        cell, i := cell + [c], i + 1;
        continue;
      }
      if c == QUOTE {
        inQuotes, i := true, i + 1;
        continue;
      }
      if c == COMMA {
        cur, cell, i := cur + [cell], [], i + 1;
        continue;
      }
      if c == CR {
        if i + 1 < |src| && src[i + 1] == LF { i := i + 1; }
        rows, cur, cell, i := rows + [cur + [cell]], [], [], i + 1;
        continue;
      }
      if c == LF {
        rows, cur, cell, i := rows + [cur + [cell]], [], [], i + 1;
        continue;
      }
      cell, i := cell + [c], i + 1;
    }
    ScanEnd(src[i..], cell, cur, inQuotes);
    if |cell| > 0 || |cur| > 0 { rows := rows + [cur + [cell]]; }
    assert rows == Scan(src, [], [], false);
    while |rows| > 0
      invariant StripTrailing(rows) == Parsed(text)
    {
      StripStep(rows);
      var last := rows[|rows| - 1];
      if |last| == 1 && Blank(last[0]) { rows := rows[..|rows| - 1]; } else { return; }
    }
    StripStep(rows);
  }
}
