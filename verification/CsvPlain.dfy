/**
 On text without quotes the scanner is what one would write naively: make every
 line end an LF, split into lines, split the lines at commas.
 */
module CsvPlain {
  import opened JsText
  import opened Csv

  // CR LF and lone CR become LF.
  function Normalise(text: Str): Str
    decreases |text|
  {
    if text == [] then []
    else if text[0] == CR then [LF] + Normalise(text[if |text| > 1 && text[1] == LF then 2 else 1..])
    else [text[0]] + Normalise(text[1..])
  }

  // The lines of a text; a text that ends in a line end has no line after it.
  function Lines(text: Str): seq<Str> {
    var ls := Split(Normalise(text), LF);
    if ls[|ls| - 1] == [] then ls[..|ls| - 1] else ls
  }

  function SplitLines(ls: seq<Str>): (t: Table)
    ensures |t| == |ls|
  {
    seq(|ls|, i requires 0 <= i < |ls| => Split(ls[i], COMMA))
  }

  // A stretch of one line: no quote, no line end.
  predicate Plain(s: Str) { QUOTE !in s && CR !in s && LF !in s }

  lemma {:induction false} NormalisePlain(p: Str, rest: Str)
    requires CR !in p
    ensures Normalise(p + rest) == p + Normalise(rest)
  {
    if p == [] {
      assert p + rest == rest;
    } else {
      assert (p + rest)[1..] == p[1..] + rest;
      NormalisePlain(p[1..], rest);
    }
  }

  // A part list with one more unit at the end: the last part grows, or a new one starts.
  function Grow(parts: seq<Str>, c: Unit, sep: Unit): (r: seq<Str>)
    requires parts != []
    ensures r != []
  {
    if c == sep then parts + [[]] else parts[..|parts| - 1] + [parts[|parts| - 1] + [c]]
  }

  lemma GrowTail(first: Str, parts: seq<Str>, c: Unit, sep: Unit)
    requires parts != []
    ensures Grow([first] + parts, c, sep) == [first] + Grow(parts, c, sep)
  {
  }

  lemma GrowHead(u: Unit, parts: seq<Str>, c: Unit, sep: Unit)
    requires parts != []
    ensures var g := Grow(parts, c, sep);
            Grow([[u] + parts[0]] + parts[1..], c, sep) == [[u] + g[0]] + g[1..]
  {
    var q := [[u] + parts[0]] + parts[1..];
    if c != sep && |parts| == 1 {
      assert [u] + parts[0] + [c] == [u] + (parts[0] + [c]);
    }
  }

  lemma {:induction false} SplitSnoc(p: Str, c: Unit, sep: Unit)
    ensures Split(p + [c], sep) == Grow(Split(p, sep), c, sep)
  {
    if p == [] {
      var none: seq<Str> := [[]];
      assert p + [c] == [c] && [c][1..] == [];
      assert Split([], sep) == none && none[1..] == [] && none[..0] == [];
      assert [c] + none[0] == none[0] + [c];
    } else {
      assert (p + [c])[1..] == p[1..] + [c];
      SplitSnoc(p[1..], c, sep);
      if p[0] == sep { GrowTail([], Split(p[1..], sep), c, sep); }
      else { GrowHead(p[0], Split(p[1..], sep), c, sep); }
    }
  }

  lemma LinesOfSplit(p: Str, text: Str, rest: Str)
    requires LF !in p && Normalise(text) == p + [LF] + Normalise(rest)
    ensures Lines(text) == [p] + Lines(rest)
  {
    hide Normalise, Split;
    SplitAtFirst(p, Normalise(rest), LF);
  }

  lemma FirstLine(p: Str, c: Unit, rest: Str)
    requires CR !in p && LF !in p && (c == CR || c == LF)
    ensures Lines(p + [c] + rest) == [p] + Lines(if c == CR && rest != [] && rest[0] == LF then rest[1..] else rest)
  {
    NormalisePlain(p, [c] + rest);
    NormaliseEnd(c, rest);
    Regroup(p, c, rest);
    var after := if c == CR && rest != [] && rest[0] == LF then rest[1..] else rest;
    Regroup(p, LF, Normalise(after));
    LinesOfSplit(p, p + [c] + rest, after);
  }

  lemma Regroup(p: Str, c: Unit, rest: Str)
    ensures p + ([c] + rest) == p + [c] + rest
  {
  }

  lemma NormaliseEnd(c: Unit, rest: Str)
    requires c == CR || c == LF
    ensures Normalise([c] + rest)
         == [LF] + Normalise(if c == CR && rest != [] && rest[0] == LF then rest[1..] else rest)
  {
    var text := [c] + rest;
    assert text[1..] == rest && (rest != [] ==> text[2..] == rest[1..]);
  }

  lemma LastLine(p: Str)
    requires CR !in p && LF !in p
    ensures Lines(p) == if p == [] then [] else [p]
  {
    NormalisePlain(p, []);
    assert p + [] == p;
    SplitNone(p, LF);
  }

  lemma OneMoreRow(p: Str, ls: seq<Str>)
    ensures SplitLines([p] + ls) == [Split(p, COMMA)] + SplitLines(ls)
  {
  }

  lemma OnlyEmptySplitsEmpty(p: Str)
    ensures Split(p, COMMA) == [[]] <==> p == []
  {
  }

  lemma LastRow(p: Str, cell: Str, cur: seq<Str>)
    requires Split(p, COMMA) == cur + [cell] && (Split(p, COMMA) == [[]] <==> p == [])
    ensures Tail(cell, cur) == SplitLines(if p == [] then [] else [p])
  {
  }

  // With p the part of the current line already read, cut into cur and cell.
  lemma {:induction false} ScanPlain(text: Str, p: Str, cell: Str, cur: seq<Str>)
    requires QUOTE !in text && Plain(p) && Split(p, COMMA) == cur + [cell]
    ensures Scan(text, cell, cur, false) == SplitLines(Lines(p + text))
    decreases |text|
  {
    if text == [] {
      assert p + text == p;
      LastLine(p);
      OnlyEmptySplitsEmpty(p);
      LastRow(p, cell, cur);
    } else {
      var c, rest := text[0], text[1..];
      assert text == [c] + rest && p + text == p + [c] + rest;
      if c == CR || c == LF {
        var after := if c == CR && rest != [] && rest[0] == LF then rest[1..] else rest;
        FirstLine(p, c, rest);
        assert after == text[if c == CR && |text| > 1 && text[1] == LF then 2 else 1..];
        ScanPlain(after, [], [], []);
        assert [] + after == after;
        OneMoreRow(p, Lines(after));
      } else {
        SplitSnoc(p, c, COMMA);
        assert (cur + [cell])[..|cur|] == cur && (cur + [cell])[|cur|] == cell;
        assert Grow(cur + [cell], c, COMMA) == if c == COMMA then cur + [cell] + [[]] else cur + [cell + [c]];
        assert p + [c] + rest == (p + [c]) + rest;
        if c == COMMA { ScanPlain(rest, p + [c], [], cur + [cell]); }
        else { ScanPlain(rest, p + [c], cell + [c], cur); }
      }
    }
  }

  /** Without quotes, parsing is line splitting, comma splitting and dropping trailing blank rows. */
  lemma ScannerIsSplitting(text: Str)
    requires QUOTE !in text
    ensures Parsed(text) == StripTrailing(SplitLines(Lines(StripBom(text))))
  {
    var src := StripBom(text);
    ScanPlain(src, [], [], []);
    assert [] + src == src;
  }
}
