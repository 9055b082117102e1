/**
 The canonical JSON printer behind every audit hash (`stableStringify`).

 Values that agree up to key order and up to the printer's own coercions to null
 print alike, and the text never holds half of a surrogate pair. That the text is
 JSON and determines the value is read off it in `JsonReader`.
 */
module Json {
  import opened JsText
  import opened JsNumber
  import opened Sequences

  // `Other` stands for undefined, functions, symbols and bigints; `NonFinite` for NaN and the infinities.
  datatype Value =
    | Null
    | Other
    | NonFinite
    | Bool(b: bool)
    | Num(n: Number)
    | Text(s: Str)
    | Arr(items: seq<Value>)
    | Obj(fields: seq<Field>)

  datatype Field = Field(key: Str, value: Value)

  function Keys(fields: seq<Field>): (ks: seq<Str>)
    ensures |ks| == |fields| && forall i :: 0 <= i < |ks| ==> ks[i] == fields[i].key
  {
    seq(|fields|, i requires 0 <= i < |fields| => fields[i].key)
  }

  // What the runtime guarantees of a value: an object has no key twice.
  ghost predicate WellFormed(v: Value) {
    match v
    case Arr(items) => forall i :: 0 <= i < |items| ==> WellFormed(items[i])
    case Obj(fields) =>
      Distinct(Keys(fields)) && forall i :: 0 <= i < |fields| ==> WellFormed(fields[i].value)
    case _ => true
  }

  function IndexOf(fields: seq<Field>, k: Str): (i: nat)
    requires k in Keys(fields)
    ensures i < |fields| && fields[i].key == k
  {
    if fields[0].key == k then 0
    else
      assert Keys(fields)[1..] == Keys(fields[1..]);
      1 + IndexOf(fields[1..], k)
  }

  lemma ConsKeys(f: Field, rest: seq<Field>)
    ensures Keys([f] + rest) == [f.key] + Keys(rest)
  {
  }

  lemma ConsIndex(f: Field, rest: seq<Field>, k: Str)
    requires k in Keys(rest)
    ensures k in Keys([f] + rest) && IndexOf([f] + rest, k) == if k == f.key then 0 else 1 + IndexOf(rest, k)
  {
    ConsKeys(f, rest);
    assert ([f] + rest)[1..] == rest;
  }

  predicate NullLike(v: Value) { v.Null? || v.Other? || v.NonFinite? }

  /** Equal up to key order, with undefined and non-finite numbers read as null. */
  ghost predicate Equiv(v: Value, w: Value) {
    match (v, w)
    case (Bool(a), Bool(b)) => a == b
    case (Num(a), Num(b)) => a == b
    case (Text(a), Text(b)) => a == b
    case (Arr(xs), Arr(ys)) => |xs| == |ys| && forall i :: 0 <= i < |xs| ==> Equiv(xs[i], ys[i])
    case (Obj(fs), Obj(gs)) =>
      && (forall k :: k in Keys(fs) <==> k in Keys(gs))
      && forall k :: k in Keys(fs) ==> Equiv(fs[IndexOf(fs, k)].value, gs[IndexOf(gs, k)].value)
    case _ => NullLike(v) && NullLike(w)
  }

  // ---------- string literals (JSON.stringify of a string, RFC 8259 section 7) ----------

  const BACKSLASH: Unit := 0x5C

  predicate IsHigh(u: Unit) { 0xD800 <= u < 0xDC00 }
  predicate IsLow(u: Unit) { 0xDC00 <= u < 0xE000 }

  // Unit i of s is one half of a surrogate pair.
  predicate Paired(s: Str, i: nat)
    requires i < |s|
  {
    || (IsHigh(s[i]) && i + 1 < |s| && IsLow(s[i + 1]))
    || (IsLow(s[i]) && i > 0 && IsHigh(s[i - 1]))
  }

  function HexDigit(v: nat): (u: Unit)
    requires v < 16
    ensures IsHexDigit(u)
  {
    if v < 10 then 0x30 + v else 0x57 + v
  }

  function UnicodeEscape(u: Unit): Str {
    [BACKSLASH, 0x75, HexDigit(u / 0x1000), HexDigit(u / 0x100 % 16), HexDigit(u / 16 % 16), HexDigit(u % 16)]
  }

  function Token(u: Unit, paired: bool): (t: Str)
    ensures t != [] && t[0] != QUOTE
  {
    if u == 0x22 || u == 0x5C then [BACKSLASH, u]
    else if u == 0x08 then [BACKSLASH, 0x62]
    else if u == 0x09 then [BACKSLASH, 0x74]
    else if u == 0x0A then [BACKSLASH, 0x6E]
    else if u == 0x0C then [BACKSLASH, 0x66]
    else if u == 0x0D then [BACKSLASH, 0x72]
    else if u < 0x20 || ((IsHigh(u) || IsLow(u)) && !paired) then UnicodeEscape(u)
    else [u]
  }

  function EscapeFrom(s: Str, i: nat): Str
    requires i <= |s|
    decreases |s| - i
  {
    if i == |s| then [] else Token(s[i], Paired(s, i)) + EscapeFrom(s, i + 1)
  }

  function Quote(s: Str): Str {
    [QUOTE] + EscapeFrom(s, 0) + [QUOTE]
  }

  // ---------- the printer ----------

  const NULL_TEXT: Str := [0x6E, 0x75, 0x6C, 0x6C]
  const TRUE_TEXT: Str := [0x74, 0x72, 0x75, 0x65]
  const FALSE_TEXT: Str := [0x66, 0x61, 0x6C, 0x73, 0x65]
  const COLON: Unit := 0x3A
  const LBRACKET: Unit := 0x5B
  const RBRACKET: Unit := 0x5D
  const LBRACE: Unit := 0x7B
  const RBRACE: Unit := 0x7D

  function Insert(k: Str, ks: seq<Str>): (r: seq<Str>)
    ensures multiset(r) == multiset{k} + multiset(ks)
  {
    if ks == [] then [k]
    else
      assert ks == [ks[0]] + ks[1..];
      if Less(ks[0], k) then [ks[0]] + Insert(k, ks[1..]) else [k] + ks
  }

  function SortKeys(ks: seq<Str>): (r: seq<Str>)
    ensures multiset(r) == multiset(ks)
  {
    if ks == [] then []
    else
      assert ks == [ks[0]] + ks[1..];
      Insert(ks[0], SortKeys(ks[1..]))
  }

  function SortedKeys(fields: seq<Field>): (ks: seq<Str>)
    ensures multiset(ks) == multiset(Keys(fields))
    ensures forall k :: k in ks <==> k in Keys(fields)
  {
    var ks := SortKeys(Keys(fields));
    assert forall k :: k in ks <==> k in multiset(ks);
    assert forall k :: k in Keys(fields) <==> k in multiset(Keys(fields));
    ks
  }

  function Stringify(v: Value): Str
    decreases v, 0
  {
    match v
    case Null => NULL_TEXT
    case Other => NULL_TEXT
    case NonFinite => NULL_TEXT
    case Bool(b) => if b then TRUE_TEXT else FALSE_TEXT
    case Num(n) => Show(n)
    case Text(s) => Quote(s)
    case Arr(items) => [LBRACKET] + Items(items) + [RBRACKET]
    case Obj(fields) => [LBRACE] + Members(SortedKeys(fields), fields) + [RBRACE]
  }

  function Items(items: seq<Value>): Str
    decreases items, 0
  {
    if items == [] then []
    else if |items| == 1 then Stringify(items[0])
    else Stringify(items[0]) + [COMMA] + Items(items[1..])
  }

  function Member(k: Str, fields: seq<Field>): Str
    requires k in Keys(fields)
    decreases fields, 0
  {
    Quote(k) + [COLON] + Stringify(fields[IndexOf(fields, k)].value)
  }

  function Members(ks: seq<Str>, fields: seq<Field>): Str
    requires forall k :: k in ks ==> k in Keys(fields)
    decreases fields, 1, |ks|
  {
    if ks == [] then []
    else if |ks| == 1 then Member(ks[0], fields)
    else Member(ks[0], fields) + [COMMA] + Members(ks[1..], fields)
  }

  // ---------- reading a string literal back ----------

  lemma Nibbles(u: Unit)
    ensures u == u / 0x1000 * 0x1000 + u / 0x100 % 16 * 0x100 + u / 16 % 16 * 16 + u % 16
    ensures u / 0x1000 < 16
  {
    assert u / 16 / 16 == u / 0x100 && u / 0x100 / 16 == u / 0x1000;
  }

  lemma Assoc(a: Str, b: Str, c: Str)
    ensures a + b + c == a + (b + c)
  {
  }

  // An escaped body followed by its closing quote and more text.
  lemma EscapeStep(s: Str, i: nat, x: Str)
    requires i < |s|
    ensures EscapeFrom(s, i) + ([QUOTE] + x)
         == Token(s[i], Paired(s, i)) + (EscapeFrom(s, i + 1) + ([QUOTE] + x))
    ensures (EscapeFrom(s, i) + ([QUOTE] + x))[0] != QUOTE
  {
    Assoc(Token(s[i], Paired(s, i)), EscapeFrom(s, i + 1), [QUOTE] + x);
  }

  lemma EscapeEnd(s: Str, x: Str)
    ensures EscapeFrom(s, |s|) + ([QUOTE] + x) == [QUOTE] + x
    ensures ([QUOTE] + x)[1..] == x
  {
  }

  lemma QuoteTail(s: Str, x: Str)
    ensures Quote(s) + x == [QUOTE] + (EscapeFrom(s, 0) + ([QUOTE] + x))
  {
  }

  // ---------- reading a value back ----------

  // Text that may follow a printed value: nothing that would prolong a number.
  predicate Delimited(r: Str) {
    r == [] || !IsNumberChar(r[0])
  }

  // The first unit of the text tells the kind of the value.
  datatype Kind = KNull | KTrue | KFalse | KText | KArr | KObj | KNum | KNone

  function KindOf(v: Value): Kind {
    match v
    case Bool(b) => if b then KTrue else KFalse
    case Num(_) => KNum
    case Text(_) => KText
    case Arr(_) => KArr
    case Obj(_) => KObj
    case _ => KNull
  }

  function KindOfUnit(u: Unit): Kind {
    if u == 0x6E then KNull
    else if u == 0x74 then KTrue
    else if u == 0x66 then KFalse
    else if u == QUOTE then KText
    else if u == LBRACKET then KArr
    else if u == LBRACE then KObj
    else if IsDigit(u) || u == MINUS then KNum
    else KNone
  }

  lemma {:induction false} FirstUnit(v: Value, r: Str)
    ensures var t := Stringify(v) + r; t != [] && KindOfUnit(t[0]) == KindOf(v)
  {
    var x := Stringify(v);
    match v
    case Num(n) => ShowChars(n); assert x == Show(n);
    case Text(s) => assert x[0] == QUOTE;
    case Arr(_) => assert x[0] == LBRACKET;
    case Obj(_) => assert x[0] == LBRACE;
    case Bool(b) => assert x == if b then TRUE_TEXT else FALSE_TEXT;
    case _ => assert x == NULL_TEXT;
  }

  // What follows an array item or an object member: more of them, or the closing bracket.
  function Rest(more: bool, tail: Str, close: Unit, r: Str): (t: Str)
    requires !IsNumberChar(close)
    ensures Delimited(t)
  {
    if more then [COMMA] + (tail + ([close] + r)) else [close] + r
  }

  lemma ItemsStep(vs: seq<Value>, r: Str)
    requires vs != []
    ensures Items(vs) + ([RBRACKET] + r) == Stringify(vs[0]) + Rest(|vs| > 1, Items(vs[1..]), RBRACKET, r)
  {
    if |vs| > 1 {
      Assoc(Stringify(vs[0]) + [COMMA], Items(vs[1..]), [RBRACKET] + r);
      Assoc(Stringify(vs[0]), [COMMA], Items(vs[1..]) + ([RBRACKET] + r));
    }
  }

  lemma MembersStep(ks: seq<Str>, fs: seq<Field>, r: Str)
    requires ks != [] && forall k :: k in ks ==> k in Keys(fs)
    ensures Members(ks, fs) + ([RBRACE] + r)
         == Quote(ks[0]) + ([COLON] + (Stringify(fs[IndexOf(fs, ks[0])].value)
            + Rest(|ks| > 1, Members(ks[1..], fs), RBRACE, r)))
    ensures (Members(ks, fs) + ([RBRACE] + r))[0] == QUOTE
  {
    var q, v := Quote(ks[0]), Stringify(fs[IndexOf(fs, ks[0])].value);
    var rest := Rest(|ks| > 1, Members(ks[1..], fs), RBRACE, r);
    assert Members(ks, fs) + ([RBRACE] + r) == Member(ks[0], fs) + rest by {
      if |ks| > 1 {
        Assoc(Member(ks[0], fs) + [COMMA], Members(ks[1..], fs), [RBRACE] + r);
        Assoc(Member(ks[0], fs), [COMMA], Members(ks[1..], fs) + ([RBRACE] + r));
      }
    }
    Assoc(q + [COLON], v, rest);
    Assoc(q, [COLON], v + rest);
  }

  // ---------- equivalent values print alike ----------

  predicate Sorted(ks: seq<Str>) {
    forall i, j :: 0 <= i < j < |ks| ==> !Less(ks[j], ks[i])
  }

  lemma {:induction false} InsertSorted(k: Str, ks: seq<Str>)
    requires Sorted(ks)
    ensures Sorted(Insert(k, ks))
  {
    if ks != [] {
      var r := Insert(k, ks);
      if Less(ks[0], k) {
        InsertSorted(k, ks[1..]);
        var r' := Insert(k, ks[1..]);
        forall j | 1 <= j < |r|
          ensures !Less(r[j], r[0])
        {
          assert r[j] in multiset(r');
          if r[j] == k { LessAsymmetric(ks[0], k); }
          else { assert r[j] in multiset(ks[1..]); }
        }
      } else {
        forall j | 1 <= j < |r|
          ensures !Less(r[j], r[0])
        {
          if j > 1 && Less(ks[j - 1], k) {
            LessTotal(ks[0], k);
            if Less(k, ks[0]) { LessTransitive(ks[j - 1], k, ks[0]); }
            assert false;
          }
        }
      }
    }
  }

  lemma {:induction false} SortKeysSorted(ks: seq<Str>)
    ensures Sorted(SortKeys(ks))
  {
    if ks != [] {
      SortKeysSorted(ks[1..]);
      InsertSorted(ks[0], SortKeys(ks[1..]));
    }
  }

  // There is one way to sort: the printed order is a function of the key set, whatever sort is used.
  lemma {:induction false} SortedUnique(ks: seq<Str>, ls: seq<Str>)
    requires Sorted(ks) && Sorted(ls) && multiset(ks) == multiset(ls)
    ensures ks == ls
  {
    assert |ks| == |multiset(ks)| == |multiset(ls)| == |ls|;
    if ks != [] {
      SortedHead(ks, ls);
      assert ks == [ks[0]] + ks[1..] && ls == [ls[0]] + ls[1..];
      assert multiset(ks[1..]) == multiset(ks) - multiset{ks[0]};
      assert multiset(ls[1..]) == multiset(ls) - multiset{ls[0]};
      SortedUnique(ks[1..], ls[1..]);
    }
  }

  lemma SortedHead(ks: seq<Str>, ls: seq<Str>)
    requires Sorted(ks) && Sorted(ls) && ks != [] && ls != [] && multiset(ks) == multiset(ls)
    ensures ks[0] == ls[0]
  {
    assert ks[0] in multiset(ls) && ls[0] in multiset(ks);
    LessIrreflexive(ks[0]);
    LessTotal(ks[0], ls[0]);
  }

  lemma DistinctMultiset(ks: seq<Str>, k: Str)
    requires Distinct(ks)
    ensures multiset(ks)[k] == if k in ks then 1 else 0
  {
    if ks != [] {
      assert ks == [ks[0]] + ks[1..];
      DistinctMultiset(ks[1..], k);
    }
  }

  lemma StillDistinct(ks: seq<Str>, ls: seq<Str>)
    requires Distinct(ks) && multiset(ls) == multiset(ks)
    ensures Distinct(ls)
  {
    forall i, j | 0 <= i < j < |ls| ensures ls[i] != ls[j] {
      DistinctMultiset(ks, ls[i]);
      if ls[i] == ls[j] { TwiceCounts(ls, i, j); }
    }
  }

  lemma TwiceCounts(ks: seq<Str>, i: nat, j: nat)
    requires i < j < |ks| && ks[i] == ks[j]
    ensures multiset(ks)[ks[i]] >= 2
  {
    assert ks == ks[..i] + [ks[i]] + ks[i + 1..j] + [ks[j]] + ks[j + 1..];
  }

  lemma SameKeysSameOrder(fs: seq<Field>, gs: seq<Field>)
    requires Distinct(Keys(fs)) && Distinct(Keys(gs))
    requires forall k :: k in Keys(fs) <==> k in Keys(gs)
    ensures SortedKeys(fs) == SortedKeys(gs)
  {
    hide Distinct, Keys, SortedKeys, Sorted;
    SameMultiset(Keys(fs), Keys(gs));
    KeysAscend(fs);
    KeysAscend(gs);
    SortedUnique(SortedKeys(fs), SortedKeys(gs));
  }

  lemma SameMultiset(ks: seq<Str>, ls: seq<Str>)
    requires Distinct(ks) && Distinct(ls) && forall k :: k in ks <==> k in ls
    ensures multiset(ks) == multiset(ls)
  {
    hide Distinct;
    forall k ensures multiset(ks)[k] == multiset(ls)[k] {
      DistinctMultiset(ks, k);
      DistinctMultiset(ls, k);
    }
  }

  lemma KeysAscend(fs: seq<Field>)
    ensures Sorted(SortedKeys(fs))
  {
    SortKeysSorted(Keys(fs));
  }

  lemma {:induction false} EquivPrintsAlike(v: Value, w: Value)
    requires WellFormed(v) && WellFormed(w) && Equiv(v, w)
    ensures Stringify(v) == Stringify(w)
    decreases v, 0
  {
    match v
    case Arr(items) => ItemsAlike(items, w.items);
    case Obj(fields) =>
      SameKeysSameOrder(fields, w.fields);
      MembersAlike(SortedKeys(fields), fields, w.fields);
    case _ =>
  }

  lemma {:induction false} ItemsAlike(vs: seq<Value>, ws: seq<Value>)
    requires |vs| == |ws|
    requires forall i :: 0 <= i < |vs| ==> WellFormed(vs[i]) && WellFormed(ws[i]) && Equiv(vs[i], ws[i])
    ensures Items(vs) == Items(ws)
    decreases vs, 0
  {
    if vs != [] {
      EquivPrintsAlike(vs[0], ws[0]);
      ItemsAlike(vs[1..], ws[1..]);
    }
  }

  lemma {:induction false} MembersAlike(ks: seq<Str>, fs: seq<Field>, gs: seq<Field>)
    requires forall k :: k in ks ==> k in Keys(fs) && k in Keys(gs)
    requires forall i :: 0 <= i < |fs| ==> WellFormed(fs[i].value)
    requires forall i :: 0 <= i < |gs| ==> WellFormed(gs[i].value)
    requires forall k :: k in ks ==> Equiv(fs[IndexOf(fs, k)].value, gs[IndexOf(gs, k)].value)
    ensures Members(ks, fs) == Members(ks, gs)
    decreases fs, 0, |ks|
  {
    if ks != [] {
      assert Equiv(fs[IndexOf(fs, ks[0])].value, gs[IndexOf(gs, ks[0])].value);
      EquivPrintsAlike(fs[IndexOf(fs, ks[0])].value, gs[IndexOf(gs, ks[0])].value);
      MembersAlike(ks[1..], fs, gs);
    }
  }

  // ---------- no lone surrogates ----------

  // Every surrogate is half of a pair: encoding the text as UTF-8 loses nothing.
  predicate WellPaired(t: Str) {
    forall i :: 0 <= i < |t| && (IsHigh(t[i]) || IsLow(t[i])) ==> Paired(t, i)
  }

  lemma PairedGlue(a: Str, b: Str)
    requires WellPaired(a) && WellPaired(b)
    ensures WellPaired(a + b)
  {
  }

  lemma PairPaired(u: Unit, v: Unit)
    requires IsHigh(u) && IsLow(v)
    ensures WellPaired([u, v])
    ensures Token(u, true) == [u] && Token(v, true) == [v]
  {
  }

  lemma TokenPaired(u: Unit, paired: bool)
    requires paired ==> !IsHigh(u) && !IsLow(u)
    ensures WellPaired(Token(u, paired))
  {
  }

  // Behind a pair, and behind anything else.
  lemma EscapePair(s: Str, i: nat)
    requires i + 1 < |s| && IsHigh(s[i]) && IsLow(s[i + 1])
    ensures EscapeFrom(s, i) == [s[i], s[i + 1]] + EscapeFrom(s, i + 2)
  {
    hide Token;
    PairPaired(s[i], s[i + 1]);
    assert EscapeFrom(s, i + 1) == [s[i + 1]] + EscapeFrom(s, i + 2);
  }

  lemma {:induction false} EscapePaired(s: Str, i: nat)
    requires i <= |s|
    requires 0 < i < |s| ==> !(IsHigh(s[i - 1]) && IsLow(s[i]))
    ensures WellPaired(EscapeFrom(s, i))
    decreases |s| - i
  {
    if i < |s| {
      hide Token, WellPaired;
      if i + 1 < |s| && IsHigh(s[i]) && IsLow(s[i + 1]) {
        EscapePaired(s, i + 2);
        EscapePair(s, i);
        PairPaired(s[i], s[i + 1]);
        PairedGlue([s[i], s[i + 1]], EscapeFrom(s, i + 2));
      } else {
        EscapePaired(s, i + 1);
        TokenPaired(s[i], Paired(s, i));
        PairedGlue(Token(s[i], Paired(s, i)), EscapeFrom(s, i + 1));
      }
    }
  }

  lemma QuotePaired(s: Str)
    ensures WellPaired(Quote(s))
  {
    EscapePaired(s, 0);
    PairedGlue([QUOTE], EscapeFrom(s, 0));
    PairedGlue([QUOTE] + EscapeFrom(s, 0), [QUOTE]);
  }

  lemma {:induction false} StringifyPaired(v: Value)
    ensures WellPaired(Stringify(v))
    decreases v, 0
  {
    match v
    case Num(n) => ShowChars(n);
    case Text(s) => QuotePaired(s);
    case Arr(items) =>
      ItemsPaired(items);
      PairedGlue([LBRACKET], Items(items));
      PairedGlue([LBRACKET] + Items(items), [RBRACKET]);
    case Obj(fields) =>
      var ms := Members(SortedKeys(fields), fields);
      MembersPaired(SortedKeys(fields), fields);
      PairedGlue([LBRACE], ms);
      PairedGlue([LBRACE] + ms, [RBRACE]);
    case _ =>
  }

  lemma {:induction false} ItemsPaired(items: seq<Value>)
    ensures WellPaired(Items(items))
    decreases items, 0
  {
    if items != [] {
      StringifyPaired(items[0]);
      ItemsPaired(items[1..]);
      PairedGlue(Stringify(items[0]), [COMMA]);
      PairedGlue(Stringify(items[0]) + [COMMA], Items(items[1..]));
    }
  }

  lemma {:induction false} MembersPaired(ks: seq<Str>, fields: seq<Field>)
    requires forall k :: k in ks ==> k in Keys(fields)
    ensures WellPaired(Members(ks, fields))
    decreases fields, 1, |ks|
  {
    if ks != [] {
      var v := fields[IndexOf(fields, ks[0])].value;
      QuotePaired(ks[0]);
      StringifyPaired(v);
      PairedGlue(Quote(ks[0]), [COLON]);
      PairedGlue(Quote(ks[0]) + [COLON], Stringify(v));
      MembersPaired(ks[1..], fields);
      PairedGlue(Member(ks[0], fields), [COMMA]);
      PairedGlue(Member(ks[0], fields) + [COMMA], Members(ks[1..], fields));
    }
  }
}
