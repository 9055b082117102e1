/**
 Reading JSON text as the grammar of RFC 8259 has it, without white space, and
 what that says of the canonical printer: its text is read back as the value it
 was printed from, with the keys of every object in ascending order.

 So the printed text determines the value up to key order and the printer's own
 coercions to null. Only then does a hash over the text bind the row.
 */
module JsonReader {
  import opened Options
  import opened JsText
  import opened JsNumber
  import opened Json
  import opened NumberReader
  import opened Sequences

  // ---------- the reader ----------

  function HexValue(u: Unit): (v: Option<nat>)
    ensures v.Some? ==> v.value < 16
  {
    if 0x30 <= u <= 0x39 then Some(u - 0x30)
    else if 0x61 <= u <= 0x66 then Some(u - 0x61 + 10)
    else if 0x41 <= u <= 0x46 then Some(u - 0x41 + 10)
    else None
  }

  function FourDigits(a: nat, b: nat, c: nat, d: nat): Unit
    requires a < 16 && b < 16 && c < 16 && d < 16
  {
    ((a * 16 + b) * 16 + c) * 16 + d
  }

  // The unit that a backslash and this letter stand for.
  function Unescaped(letter: Unit): Option<Unit> {
    if letter == '"' as int || letter == '\\' as int || letter == '/' as int then Some(letter)
    else if letter == 'b' as int then Some(0x08)
    else if letter == 'f' as int then Some(0x0C)
    else if letter == 'n' as int then Some(0x0A)
    else if letter == 'r' as int then Some(0x0D)
    else if letter == 't' as int then Some(0x09)
    else None
  }

  // One character of a string literal, and what follows it.
  function ReadUnit(t: Str): (r: Option<(Unit, Str)>)
    ensures r.Some? ==> |r.value.1| < |t|
  {
    if t == [] || t[0] == '"' as int || t[0] < 0x20 then None
    else if t[0] != '\\' as int then Some((t[0], t[1..]))
    else if |t| < 2 then None
    else if t[1] != 'u' as int then
      match Unescaped(t[1]) case None => None case Some(u) => Some((u, t[2..]))
    else if |t| < 6 then None
    else
      match (HexValue(t[2]), HexValue(t[3]), HexValue(t[4]), HexValue(t[5]))
      case (Some(a), Some(b), Some(c), Some(d)) => Some((FourDigits(a, b, c, d), t[6..]))
      case _ => None
  }

  // The rest of a string literal, and what follows its closing quote.
  function ReadUnits(t: Str): (r: Option<(Str, Str)>)
    ensures r.Some? ==> |r.value.1| < |t|
    decreases |t|
  {
    if t != [] && t[0] == '"' as int then Some(([], t[1..]))
    else
      match ReadUnit(t)
      case None => None
      case Some((u, more)) =>
        match ReadUnits(more) case None => None case Some((s, rest)) => Some(([u] + s, rest))
  }

  // The number characters at the start.
  function Span(t: Str): (n: nat)
    ensures n <= |t|
  {
    if t != [] && IsNumberChar(t[0]) then 1 + Span(t[1..]) else 0
  }

  function ReadValue(t: Str): (r: Option<(Value, Str)>)
    ensures r.Some? ==> |r.value.1| < |t|
    decreases |t|, 0
  {
    if t == [] then None
    else if Ascii("null") <= t then Some((Null, t[4..]))
    else if Ascii("true") <= t then Some((Bool(true), t[4..]))
    else if Ascii("false") <= t then Some((Bool(false), t[5..]))
    else if t[0] == '"' as int then
      match ReadUnits(t[1..]) case None => None case Some((s, rest)) => Some((Text(s), rest))
    else if t[0] == '[' as int then
      if |t| > 1 && t[1] == ']' as int then Some((Arr([]), t[2..]))
      else match ReadItems(t[1..]) case None => None case Some((items, rest)) => Some((Arr(items), rest))
    else if t[0] == '{' as int then
      if |t| > 1 && t[1] == '}' as int then Some((Obj([]), t[2..]))
      else match ReadFields(t[1..]) case None => None case Some((fields, rest)) => Some((Obj(fields), rest))
    else
      var n := Span(t);
      match ReadNumber(t[..n])
      case None => None
      case Some(x) => if n > 0 && x.Valid() then Some((Num(x), t[n..])) else None
  }

  // Items up to the closing bracket.
  function ReadItems(t: Str): (r: Option<(seq<Value>, Str)>)
    ensures r.Some? ==> |r.value.1| < |t|
    decreases |t|, 1
  {
    match ReadValue(t)
    case None => None
    case Some((v, more)) =>
      if more != [] && more[0] == ']' as int then Some(([v], more[1..]))
      else if more != [] && more[0] == ',' as int then
        match ReadItems(more[1..]) case None => None case Some((vs, rest)) => Some(([v] + vs, rest))
      else None
  }

  // One key, a colon and a value.
  function ReadField(t: Str): (r: Option<(Field, Str)>)
    ensures r.Some? ==> |r.value.1| < |t|
    decreases |t|, 1
  {
    if t == [] || t[0] != '"' as int then None
    else
      match ReadUnits(t[1..])
      case None => None
      case Some((key, more)) =>
        if more == [] || more[0] != ':' as int then None
        else match ReadValue(more[1..]) case None => None case Some((v, rest)) => Some((Field(key, v), rest))
  }

  // Fields up to the closing brace.
  function ReadFields(t: Str): (r: Option<(seq<Field>, Str)>)
    ensures r.Some? ==> |r.value.1| < |t|
    decreases |t|, 2
  {
    match ReadField(t)
    case None => None
    case Some((f, more)) =>
      if more != [] && more[0] == '}' as int then Some(([f], more[1..]))
      else if more != [] && more[0] == ',' as int then
        match ReadFields(more[1..]) case None => None case Some((fs, rest)) => Some(([f] + fs, rest))
      else None
  }

  // ---------- strings ----------

  lemma HexRead(v: nat)
    requires v < 16
    ensures HexValue(HexDigit(v)) == Some(v)
  {
  }

  lemma HexUnit(u: Unit)
    ensures u == ((u / 0x1000 * 16 + u / 0x100 % 16) * 16 + u / 16 % 16) * 16 + u % 16
  {
    Nibbles(u);
  }

  // A token is read as its unit.
  lemma TokenRead(u: Unit, paired: bool, x: Str)
    ensures (Token(u, paired) + x)[0] != QUOTE
    ensures ReadUnit(Token(u, paired) + x) == Some((u, x))
  {
    var t := Token(u, paired);
    var text := t + x;
    assert text[|t|..] == x && forall i :: 0 <= i < |t| ==> text[i] == t[i];
    if |t| == 6 {
      HexRead(u / 0x1000);
      HexRead(u / 0x100 % 16);
      HexRead(u / 16 % 16);
      HexRead(u % 16);
      HexUnit(u);
    }
  }

  lemma {:induction false} EscapeRead(s: Str, i: nat, x: Str)
    requires i <= |s|
    ensures ReadUnits(EscapeFrom(s, i) + ([QUOTE] + x)) == Some((s[i..], x))
    decreases |s| - i
  {
    hide Token, ReadUnit, Paired;
    if i == |s| {
      EscapeEnd(s, x);
    } else {
      var more := EscapeFrom(s, i + 1) + ([QUOTE] + x);
      EscapeStep(s, i, x);
      TokenRead(s[i], Paired(s, i), more);
      EscapeRead(s, i + 1, x);
      assert s[i..] == [s[i]] + s[i + 1..];
    }
  }

  lemma QuoteRead(s: Str, x: Str)
    ensures Quote(s) + x != [] && (Quote(s) + x)[0] == QUOTE && ReadUnits((Quote(s) + x)[1..]) == Some((s, x))
  {
    hide ReadUnits, EscapeFrom;
    QuoteTail(s, x);
    EscapeRead(s, 0, x);
    assert s[0..] == s;
  }

  // ---------- what the printer's text says ----------

  // The value without what printing loses: no null-like value but null, keys in printed order.
  function Printed(v: Value): Value
    decreases v, 0
  {
    match v
    case Other => Null
    case NonFinite => Null
    case Arr(items) => Arr(PrintedItems(items))
    case Obj(fields) => Obj(PrintedFields(SortedKeys(fields), fields))
    case _ => v
  }

  function PrintedItems(items: seq<Value>): seq<Value>
    decreases items, 0
  {
    if items == [] then [] else [Printed(items[0])] + PrintedItems(items[1..])
  }

  function PrintedFields(ks: seq<Str>, fields: seq<Field>): seq<Field>
    requires forall k :: k in ks ==> k in Keys(fields)
    decreases fields, 1, |ks|
  {
    if ks == [] then []
    else [Field(ks[0], Printed(fields[IndexOf(fields, ks[0])].value))] + PrintedFields(ks[1..], fields)
  }

  lemma {:induction false} SpanOf(a: Str, r: Str)
    requires AllNumberChars(a) && Delimited(r)
    ensures Span(a + r) == |a|
  {
    if a == [] {
      assert a + r == r;
    } else {
      assert (a + r)[1..] == a[1..] + r;
      SpanOf(a[1..], r);
    }
  }

  lemma NumberRead(x: Number, r: Str)
    requires Delimited(r)
    ensures ReadValue(Show(x) + r) == Some((Num(x), r))
  {
    hide Show, ReadNumber;
    var t := Show(x) + r;
    ShowChars(x);
    ReadsBack(x);
    SpanOf(Show(x), r);
    assert t[..|Show(x)|] == Show(x) && t[|Show(x)|..] == r && t[0] == Show(x)[0];
    NoWord(t);
  }

  lemma WordRead(v: Value, r: Str)
    requires NullLike(v) || v.Bool?
    ensures ReadValue(Stringify(v) + r) == Some((Printed(v), r))
  {
    var t := Stringify(v) + r;
    assert t[|Stringify(v)|..] == r && t[..|Stringify(v)|] == Stringify(v);
    assert Ascii("null") == NULL_TEXT && Ascii("true") == TRUE_TEXT && Ascii("false") == FALSE_TEXT;
    assert t[0] == Stringify(v)[0];
  }

  lemma NoWord(t: Str)
    requires t != [] && t[0] != 'n' as int && t[0] != 't' as int && t[0] != 'f' as int
    ensures !(Ascii("null") <= t) && !(Ascii("true") <= t) && !(Ascii("false") <= t)
  {
    assert Ascii("null")[0] == 'n' as int && Ascii("true")[0] == 't' as int && Ascii("false")[0] == 'f' as int;
  }

  lemma TextRead(s: Str, r: Str)
    ensures ReadValue(Quote(s) + r) == Some((Text(s), r))
  {
    hide ReadUnits, Quote, Ascii;
    var t := Quote(s) + r;
    QuoteRead(s, r);
    NoWord(t);
    assert ReadUnits(t[1..]) == Some((s, r));
  }

  // A list is read item by item; `first` begins its text and `rest` is what is left of it.
  lemma BracketRead(body: Str, r: Str, items: seq<Value>)
    requires body != [] && body[0] != RBRACKET && ReadItems(body + ([RBRACKET] + r)) == Some((items, r))
    ensures ReadValue([LBRACKET] + body + [RBRACKET] + r) == Some((Arr(items), r))
  {
    hide ReadItems, Ascii;
    var t := [LBRACKET] + body + [RBRACKET] + r;
    NoWord(t);
    assert t[1..] == body + ([RBRACKET] + r) && t[1] == body[0];
  }

  lemma BraceRead(body: Str, r: Str, fields: seq<Field>)
    requires body != [] && body[0] != RBRACE && ReadFields(body + ([RBRACE] + r)) == Some((fields, r))
    ensures ReadValue([LBRACE] + body + [RBRACE] + r) == Some((Obj(fields), r))
  {
    hide ReadFields, Ascii;
    var t := [LBRACE] + body + [RBRACE] + r;
    NoWord(t);
    assert t[1..] == body + ([RBRACE] + r) && t[1] == body[0];
  }

  lemma EmptyRead(r: Str)
    ensures ReadValue([LBRACKET] + [] + [RBRACKET] + r) == Some((Arr([]), r))
    ensures ReadValue([LBRACE] + [] + [RBRACE] + r) == Some((Obj([]), r))
  {
    hide ReadItems, ReadFields, Ascii;
    var s, t := [LBRACKET] + [] + [RBRACKET] + r, [LBRACE] + [] + [RBRACE] + r;
    NoWord(s);
    NoWord(t);
    assert s[2..] == r && t[2..] == r && s[1] == RBRACKET && t[1] == RBRACE;
  }

  lemma OneItemRead(first: Str, v: Value, more: bool, tail: Str, vs: seq<Value>, r: Str)
    requires ReadValue(first + Rest(more, tail, RBRACKET, r)) == Some((v, Rest(more, tail, RBRACKET, r)))
    requires more ==> ReadItems(tail + ([RBRACKET] + r)) == Some((vs, r))
    requires !more ==> vs == []
    ensures ReadItems(first + Rest(more, tail, RBRACKET, r)) == Some(([v] + vs, r))
  {
    hide ReadValue;
    var rest := Rest(more, tail, RBRACKET, r);
    assert rest[1..] == if more then tail + ([RBRACKET] + r) else r;
    assert [v] + [] == [v];
  }

  lemma FieldRead(k: Str, text: Str, v: Value, rest: Str)
    requires ReadValue(text + rest) == Some((v, rest))
    ensures ReadField(Quote(k) + ([COLON] + (text + rest))) == Some((Field(k, v), rest))
  {
    hide ReadValue, ReadUnits, Quote;
    QuoteRead(k, [COLON] + (text + rest));
    assert ([COLON] + (text + rest))[1..] == text + rest;
  }

  lemma OneFieldRead(first: Str, f: Field, more: bool, tail: Str, fs: seq<Field>, r: Str)
    requires ReadField(first + Rest(more, tail, RBRACE, r)) == Some((f, Rest(more, tail, RBRACE, r)))
    requires more ==> ReadFields(tail + ([RBRACE] + r)) == Some((fs, r))
    requires !more ==> fs == []
    ensures ReadFields(first + Rest(more, tail, RBRACE, r)) == Some(([f] + fs, r))
  {
    hide ReadField;
    var rest := Rest(more, tail, RBRACE, r);
    assert rest[1..] == if more then tail + ([RBRACE] + r) else r;
    assert [f] + [] == [f];
  }

  lemma FirstOfItems(items: seq<Value>)
    requires items != []
    ensures Items(items) != [] && Items(items)[0] != RBRACKET
  {
    hide Stringify;
    FirstUnit(items[0], []);
    assert Stringify(items[0]) + [] == Stringify(items[0]);
  }

  lemma FirstOfMembers(ks: seq<Str>, fields: seq<Field>)
    requires ks != [] && forall k :: k in ks ==> k in Keys(fields)
    ensures Members(ks, fields) != [] && Members(ks, fields)[0] == QUOTE
  {
    hide Stringify, EscapeFrom;
  }

  /** The text of a value, whatever follows it, is read as the value it printed. */
  lemma {:induction false} ValueRead(v: Value, r: Str)
    requires Delimited(r)
    ensures ReadValue(Stringify(v) + r) == Some((Printed(v), r))
    decreases v, 0
  {
    hide ReadValue, ReadItems, ReadFields, Quote, Show;
    match v
    case Num(n) => NumberRead(n, r);
    case Text(s) => TextRead(s, r);
    case Arr(items) =>
      if items == [] { EmptyRead(r); } else { FirstOfItems(items); ItemsRead(items, r); BracketRead(Items(items), r, PrintedItems(items)); }
    case Obj(fields) =>
      var ks := SortedKeys(fields);
      if ks == [] { EmptyRead(r); } else {
        FirstOfMembers(ks, fields);
        MembersRead(ks, fields, r);
        BraceRead(Members(ks, fields), r, PrintedFields(ks, fields));
      }
    case _ => WordRead(v, r);
  }

  lemma {:induction false} ItemsRead(items: seq<Value>, r: Str)
    requires items != []
    ensures ReadItems(Items(items) + ([RBRACKET] + r)) == Some((PrintedItems(items), r))
    decreases items, 0
  {
    hide ReadValue, ReadItems, Stringify;
    var more := |items| > 1;
    var rest := Rest(more, Items(items[1..]), RBRACKET, r);
    ItemsStep(items, r);
    ValueRead(items[0], rest);
    if more { ItemsRead(items[1..], r); }
    OneItemRead(Stringify(items[0]), Printed(items[0]), more, Items(items[1..]), PrintedItems(items[1..]), r);
  }

  lemma {:induction false} MembersRead(ks: seq<Str>, fields: seq<Field>, r: Str)
    requires ks != [] && forall k :: k in ks ==> k in Keys(fields)
    ensures ReadFields(Members(ks, fields) + ([RBRACE] + r)) == Some((PrintedFields(ks, fields), r))
    decreases fields, 1, |ks|
  {
    hide ReadField, ReadFields, Stringify, Quote;
    var more := |ks| > 1;
    var v := fields[IndexOf(fields, ks[0])].value;
    var rest := Rest(more, Members(ks[1..], fields), RBRACE, r);
    MembersStep(ks, fields, r);
    ValueRead(v, rest);
    FieldRead(ks[0], Stringify(v), Printed(v), rest);
    if more { MembersRead(ks[1..], fields, r); }
    FieldText(ks[0], Stringify(v), rest);
    OneFieldRead(Quote(ks[0]) + ([COLON] + Stringify(v)), Field(ks[0], Printed(v)), more,
                 Members(ks[1..], fields), PrintedFields(ks[1..], fields), r);
  }

  lemma FieldText(k: Str, text: Str, rest: Str)
    ensures Quote(k) + ([COLON] + (text + rest)) == Quote(k) + ([COLON] + text) + rest
  {
    hide Quote;
  }

  // ---------- the printed value ----------

  // No value that JSON cannot write, and the keys of every object ascend by their first differing unit.
  ghost predicate Canonical(v: Value) {
    match v
    case Other => false
    case NonFinite => false
    case Arr(items) => forall i :: 0 <= i < |items| ==> Canonical(items[i])
    case Obj(fields) =>
      && (forall i, j :: 0 <= i < j < |fields| ==> Precedes(fields[i].key, fields[j].key))
      && (forall i :: 0 <= i < |fields| ==> Canonical(fields[i].value))
    case _ => true
  }

  lemma {:induction false} PrintedKeys(ks: seq<Str>, fields: seq<Field>)
    requires forall k :: k in ks ==> k in Keys(fields)
    ensures Keys(PrintedFields(ks, fields)) == ks
  {
    hide Printed;
    if ks != [] {
      PrintedKeys(ks[1..], fields);
      assert ks == [ks[0]] + ks[1..];
    }
  }

  lemma {:induction false} PrintedAt(ks: seq<Str>, fields: seq<Field>, k: Str)
    requires (forall l :: l in ks ==> l in Keys(fields)) && k in ks
    ensures (var ps := PrintedFields(ks, fields);
             k in Keys(ps) && ps[IndexOf(ps, k)].value == Printed(fields[IndexOf(fields, k)].value))
  {
    hide Printed, IndexOf, Keys;
    var first, rest := Field(ks[0], Printed(fields[IndexOf(fields, ks[0])].value)), PrintedFields(ks[1..], fields);
    ConsKeys(first, rest);
    if ks[0] == k {
      FirstIndex(first, rest);
    } else {
      PrintedAt(ks[1..], fields, k);
      ConsIndex(first, rest, k);
    }
  }

  lemma FirstIndex(f: Field, rest: seq<Field>)
    ensures f.key in Keys([f] + rest) && IndexOf([f] + rest, f.key) == 0
  {
    ConsKeys(f, rest);
  }

  lemma {:induction false} EquivPrinted(v: Value)
    ensures Equiv(v, Printed(v))
    decreases v, 0
  {
    match v
    case Arr(items) => ItemsPrinted(items);
    case Obj(fields) =>
      var ks := SortedKeys(fields);
      PrintedKeys(ks, fields);
      forall k | k in Keys(fields)
        ensures (var ps := PrintedFields(ks, fields);
                 k in Keys(ps) && Equiv(fields[IndexOf(fields, k)].value, ps[IndexOf(ps, k)].value))
      {
        PrintedAt(ks, fields, k);
        EquivPrinted(fields[IndexOf(fields, k)].value);
      }
    case _ =>
  }

  lemma {:induction false} ItemsPrinted(items: seq<Value>)
    ensures |PrintedItems(items)| == |items|
    ensures forall i :: 0 <= i < |items| ==> PrintedItems(items)[i] == Printed(items[i]) && Equiv(items[i], Printed(items[i]))
    decreases items, 0
  {
    hide Printed, Equiv;
    if items != [] {
      EquivPrinted(items[0]);
      ItemsPrinted(items[1..]);
    }
  }

  lemma KeysPrecede(fields: seq<Field>)
    requires Distinct(Keys(fields))
    ensures (var ks := SortedKeys(fields); forall i, j :: 0 <= i < j < |ks| ==> Precedes(ks[i], ks[j]))
  {
    hide SortedKeys, Precedes;
    var ks := SortedKeys(fields);
    KeysAscend(fields);
    StillDistinct(Keys(fields), ks);
    forall i, j | 0 <= i < j < |ks| ensures Precedes(ks[i], ks[j]) {
      LessTotal(ks[i], ks[j]);
      LessIsFirstDifference(ks[i], ks[j]);
    }
  }

  lemma {:induction false} PrintedCanonical(v: Value)
    requires WellFormed(v)
    ensures Canonical(Printed(v))
    decreases v, 0
  {
    match v
    case Arr(items) =>
      ItemsPrinted(items);
      forall i | 0 <= i < |items| ensures Canonical(Printed(items[i])) { PrintedCanonical(items[i]); }
    case Obj(fields) =>
      var ks := SortedKeys(fields);
      var ps := PrintedFields(ks, fields);
      PrintedKeys(ks, fields);
      KeysPrecede(fields);
      FieldsCanonical(ks, fields);
      assert forall i :: 0 <= i < |ps| ==> ps[i].key == Keys(ps)[i];
    case _ =>
  }

  lemma {:induction false} FieldsCanonical(ks: seq<Str>, fields: seq<Field>)
    requires forall k :: k in ks ==> k in Keys(fields)
    requires forall i :: 0 <= i < |fields| ==> WellFormed(fields[i].value)
    ensures forall i :: 0 <= i < |PrintedFields(ks, fields)| ==> Canonical(PrintedFields(ks, fields)[i].value)
    decreases fields, 1, |ks|
  {
    hide Printed, Canonical, WellFormed;
    if ks != [] {
      PrintedCanonical(fields[IndexOf(fields, ks[0])].value);
      FieldsCanonical(ks[1..], fields);
    }
  }

  /**
   The canonical text of a value is JSON of an equal value, in which the keys of
   every object ascend by their first differing unit and nothing is left that JSON
   cannot write.
   */
  lemma TextReadsBack(v: Value) returns (w: Value)
    requires WellFormed(v)
    ensures ReadValue(Stringify(v)) == Some((w, [])) && Equiv(v, w) && Canonical(w)
  {
    hide *;
    w := Printed(v);
    NothingFollows(Stringify(v));
    ValueRead(v, []);
    EquivPrinted(v);
    PrintedCanonical(v);
  }

  lemma NothingFollows(t: Str)
    ensures t + [] == t && Delimited([])
  {
  }

  // ---------- the text tells the value ----------

  lemma {:induction false} PrintedAlike(v: Value, w: Value)
    requires Printed(v) == Printed(w)
    ensures Equiv(v, w)
    decreases v, 0
  {
    match v
    case Arr(items) =>
      ItemsPrinted(items);
      ItemsPrinted(w.items);
      forall i | 0 <= i < |items| ensures Equiv(items[i], w.items[i]) { PrintedAlike(items[i], w.items[i]); }
    case Obj(fields) =>
      PrintedKeys(SortedKeys(fields), fields);
      PrintedKeys(SortedKeys(w.fields), w.fields);
      forall k | k in Keys(fields)
        ensures k in Keys(w.fields) && Equiv(fields[IndexOf(fields, k)].value, w.fields[IndexOf(w.fields, k)].value)
      {
        PrintedAt(SortedKeys(fields), fields, k);
        PrintedAt(SortedKeys(w.fields), w.fields, k);
        PrintedAlike(fields[IndexOf(fields, k)].value, w.fields[IndexOf(w.fields, k)].value);
      }
    case _ =>
  }

  /** Canonicalisation is unambiguous, and blind to key order and to the null coercions only. */
  lemma CanonicalText(v: Value, w: Value)
    requires WellFormed(v) && WellFormed(w)
    ensures Stringify(v) == Stringify(w) <==> Equiv(v, w)
  {
    hide *;
    if Stringify(v) == Stringify(w) {
      NothingFollows(Stringify(v));
      ValueRead(v, []);
      ValueRead(w, []);
      PrintedAlike(v, w);
    }
    if Equiv(v, w) { EquivPrintsAlike(v, w); }
  }
}
