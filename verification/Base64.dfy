/**
 The base64url helpers behind session tokens and SSO state: `btoa` and `atob` as
 RFC 4648 section 4 and the forgiving-base64 decoder define them, and the
 url-safe alphabet of section 5 without padding.
 */
module Base64 {
  import opened Options
  import opened JsText

  type Byte = b: int | 0 <= b < 256

  type Bytes = seq<Byte>

  // A SHA-256 code.
  type Mac = m: Bytes | |m| == 32 witness seq(32, _ => 0)

  type Sextet = v: int | 0 <= v < 64

  const PAD: Unit := 0x3D

  function StdUnit(v: Sextet): Unit {
    if v < 26 then 0x41 + v
    else if v < 52 then 0x61 + v - 26
    else if v < 62 then 0x30 + v - 52
    else if v == 62 then 0x2B else 0x2F
  }

  function StdValue(u: Unit): Option<Sextet> {
    if 0x41 <= u <= 0x5A then Some(u - 0x41)
    else if 0x61 <= u <= 0x7A then Some(u - 0x61 + 26)
    else if 0x30 <= u <= 0x39 then Some(u - 0x30 + 52)
    else if u == 0x2B then Some(62)
    else if u == 0x2F then Some(63)
    else None
  }

  /**
   A unit has a value exactly if it stands for it: capitals, small letters and
   digits in a row, then plus and slash, as in the table of RFC 4648 section 4.
   */
  lemma AlphabetExactly(v: Sextet, u: Unit)
    ensures StdValue(u) == Some(v) <==> StdUnit(v) == u
    ensures StdUnit(0) == 'A' as int && StdUnit(25) == 'Z' as int && StdUnit(26) == 'a' as int && StdUnit(51) == 'z' as int
    ensures StdUnit(52) == '0' as int && StdUnit(61) == '9' as int && StdUnit(62) == '+' as int && StdUnit(63) == '/' as int
    ensures v < 61 && v != 25 && v != 51 ==> StdUnit(v + 1) == StdUnit(v) + 1
  {
  }

  // The bits of the bytes, six at a time; the last sextet is filled with zeros.
  function Sextets(b: Bytes): (r: seq<Sextet>)
    ensures |r| == (4 * |b| + 2) / 3
  {
    if b == [] then []
    else if |b| == 1 then [b[0] / 4, b[0] % 4 * 16]
    else if |b| == 2 then [b[0] / 4, b[0] % 4 * 16 + b[1] / 16, b[1] % 16 * 4]
    else [b[0] / 4, b[0] % 4 * 16 + b[1] / 16, b[1] % 16 * 4 + b[2] / 64, b[2] % 64] + Sextets(b[3..])
  }

  // The octet whose high bits are the low bits of a, and whose low bits are the high bits of b.
  function Octet(a: int, b: int, high: int): (o: Byte)
    requires 0 <= a < 64 && 0 <= b < 64 && high in {4, 16, 64}
  {
    if high == 4 then a * 4 + b / 16
    else if high == 16 then a % 16 * 16 + b / 4
    else a % 4 * 64 + b
  }

  // The bytes that whole octets of the sextets make; left-over bits are dropped.
  function Octets(vs: seq<Sextet>): Bytes {
    if |vs| < 2 then []
    else if |vs| == 2 then [Octet(vs[0], vs[1], 4)]
    else if |vs| == 3 then [Octet(vs[0], vs[1], 4), Octet(vs[1], vs[2], 16)]
    else [Octet(vs[0], vs[1], 4), Octet(vs[1], vs[2], 16), Octet(vs[2], vs[3], 64)] + Octets(vs[4..])
  }

  function Each(s: Str, f: Unit -> Unit): (t: Str)
    ensures |t| == |s| && forall i :: 0 <= i < |t| ==> t[i] == f(s[i])
  {
    seq(|s|, i requires 0 <= i < |s| => f(s[i]))
  }

  function StdText(vs: seq<Sextet>): (t: Str)
    ensures |t| == |vs| && forall i :: 0 <= i < |t| ==> t[i] == StdUnit(vs[i])
  {
    seq(|vs|, i requires 0 <= i < |vs| => StdUnit(vs[i]))
  }

  function Pads(n: nat): (t: Str)
    ensures |t| == n && forall i :: 0 <= i < n ==> t[i] == PAD
  {
    seq(n, _ => PAD)
  }

  function Btoa(b: Bytes): Str {
    StdText(Sextets(b)) + Pads((3 - |b| % 3) % 3)
  }

  predicate IsBlank(u: Unit) {
    u == 0x09 || u == 0x0A || u == 0x0C || u == 0x0D || u == 0x20
  }

  function WithoutBlanks(s: Str): Str {
    if s == [] then [] else (if IsBlank(s[0]) then [] else [s[0]]) + WithoutBlanks(s[1..])
  }

  lemma {:induction false} BlanksJoin(a: Str, b: Str)
    ensures WithoutBlanks(a + b) == WithoutBlanks(a) + WithoutBlanks(b)
  {
    hide IsBlank;
    if a == [] {
      assert a + b == b;
    } else {
      assert (a + b)[1..] == a[1..] + b;
      BlanksJoin(a[1..], b);
    }
  }

  lemma OneBlank(u: Unit)
    ensures WithoutBlanks([u]) == if u in [9, 10, 12, 13, 32] then [] else [u]
  {
    assert [u][1..] == [];
  }

  /** Tabs, line feeds, form feeds, carriage returns and spaces are dropped before decoding, and nothing else. */
  lemma BlanksExactly(a: Str, u: Unit, b: Str)
    ensures WithoutBlanks(a + [u] + b) == WithoutBlanks(a) + (if u in [9, 10, 12, 13, 32] then [] else [u]) + WithoutBlanks(b)
  {
    OneBlank(u);
    hide WithoutBlanks;
    BlanksJoin(a, [u]);
    BlanksJoin(a + [u], b);
  }

  // One or two pads at the end of a text whose length is a multiple of four are dropped.
  function WithoutPads(s: Str): Str {
    var n := |s|;
    if n % 4 == 0 && n >= 2 && s[n - 1] == PAD then
      if s[n - 2] == PAD then s[..n - 2] else s[..n - 1]
    else s
  }

  predicate IsStd(s: Str) {
    forall i :: 0 <= i < |s| ==> StdValue(s[i]).Some?
  }

  function Values(s: Str): (vs: seq<Sextet>)
    requires IsStd(s)
    ensures |vs| == |s| && forall i :: 0 <= i < |s| ==> StdValue(s[i]) == Some(vs[i])
  {
    seq(|s|, i requires 0 <= i < |s| => StdValue(s[i]).value)
  }

  function Atob(s: Str): Option<Bytes> {
    var body := WithoutPads(WithoutBlanks(s));
    if |body| % 4 != 1 && IsStd(body) then Some(Octets(Values(body))) else None
  }

  // ---------- url-safe form ----------

  function ToUrl(u: Unit): Unit {
    if u == 0x2B then 0x2D else if u == 0x2F then 0x5F else u
  }

  function FromUrl(u: Unit): Unit {
    if u == 0x2D then 0x2B else if u == 0x5F then 0x2F else u
  }

  // `s.replace(/=+$/, "")`.
  function TrimPads(s: Str): Str {
    if s != [] && s[|s| - 1] == PAD then TrimPads(s[..|s| - 1]) else s
  }

  function Encode(b: Bytes): Str {
    TrimPads(Each(Btoa(b), ToUrl))
  }

  function Decode(s: Str): Option<Bytes> {
    Atob(Each(s, FromUrl) + Ascii("===")[(|s| + 3) % 4..])
  }

  method B64urlFromBytes(bytes: Bytes) returns (s: Str)
    ensures s == Encode(bytes)
  {
    var bin: Bytes := [];
    for i := 0 to |bytes|
      invariant bin == bytes[..i]
    {
      bin := bin + [bytes[i]];
    }
    assert bytes[..|bytes|] == bytes;
    return TrimPads(Each(Btoa(bin), ToUrl));
  }

  method BytesFromB64url(s: Str) returns (r: Option<Bytes>)
    ensures r == Decode(s)
  {
    var bin := Atob(Each(s, FromUrl) + Ascii("===")[(|s| + 3) % 4..]);
    if bin.None? { return None; }
    var out := new Byte[|bin.value|];
    for i := 0 to |bin.value|
      invariant out[..i] == bin.value[..i]
    {
      out[i] := bin.value[i];
    }
    assert out[..] == out[..|bin.value|] == bin.value[..|bin.value|] == bin.value;
    return Some(out[..]);
  }

  // ---------- the round trip ----------

  lemma {:induction false} OctetsOfSextets(b: Bytes)
    ensures Octets(Sextets(b)) == b
  {
    hide Octet;
    if |b| >= 3 {
      OctetsOfSextets(b[3..]);
      assert Sextets(b)[4..] == Sextets(b[3..]);
      assert b == [b[0], b[1], b[2]] + b[3..];
      Regrouped(b[0], b[1], b[2]);
    } else if |b| > 0 {
      Regrouped(b[0], if |b| == 2 then b[1] else 0, 0);
    }
  }

  lemma Regrouped(x: Byte, y: Byte, z: Byte)
    ensures (var p, q, r, s := x / 4, x % 4 * 16 + y / 16, y % 16 * 4 + z / 64, z % 64;
             Octet(p, q, 4) == x && Octet(q, r, 16) == y && Octet(r, s, 64) == z)
  {
  }

  lemma {:induction false} TrimAll(s: Str, n: nat)
    requires s != [] ==> s[|s| - 1] != PAD
    ensures TrimPads(s + Pads(n)) == s
  {
    if n == 0 {
      assert s + Pads(0) == s;
    } else {
      assert (s + Pads(n))[..|s| + n - 1] == s + Pads(n - 1);
      TrimAll(s, n - 1);
    }
  }

  // What Encode prints: one url-safe unit per sextet.
  lemma EncodeText(b: Bytes)
    ensures Encode(b) == Each(StdText(Sextets(b)), ToUrl)
  {
    var text := StdText(Sextets(b));
    var n := (3 - |b| % 3) % 3;
    assert Each(text + Pads(n), ToUrl) == Each(text, ToUrl) + Pads(n);
    TrimAll(Each(text, ToUrl), n);
  }

  predicate UrlUnit(u: Unit) {
    0x41 <= u <= 0x5A || 0x61 <= u <= 0x7A || 0x30 <= u <= 0x39 || u == 0x2D || u == 0x5F
  }

  /** Encoded text has only letters, digits, `-` and `_`, and its length depends on the byte count alone. */
  lemma EncodeAlphabet(b: Bytes)
    ensures |Encode(b)| == (4 * |b| + 2) / 3
    ensures forall u <- Encode(b) :: UrlUnit(u)
    ensures DOT !in Encode(b) && PAD !in Encode(b)
  {
    hide StdUnit, UrlUnit, ToUrl;
    EncodeText(b);
    var vs := Sextets(b);
    forall i | 0 <= i < |vs| ensures UrlUnit(ToUrl(StdUnit(vs[i]))) {
      SextetUnits(vs[i]);
    }
    assert forall u :: UrlUnit(u) ==> u != DOT && u != PAD by { UrlUnits(); }
  }

  lemma UrlUnits()
    ensures forall u :: UrlUnit(u) ==> u != DOT && u != PAD
  {
  }

  lemma {:induction false} NoBlanks(s: Str)
    requires forall i :: 0 <= i < |s| ==> !IsBlank(s[i])
    ensures WithoutBlanks(s) == s
  {
    if s != [] {
      NoBlanks(s[1..]);
      assert s == [s[0]] + s[1..];
    }
  }

  lemma PadsDropped(s: Str, n: nat)
    requires n <= 2 && (|s| + n) % 4 == 0
    requires PAD !in s
    ensures WithoutPads(s + Pads(n)) == s
  {
    assert n == 0 ==> s + Pads(n) == s;
    assert (s + Pads(n))[..|s|] == s;
    if s != [] { assert s[|s| - 1] in s; }
  }

  lemma SextetUnits(v: Sextet)
    ensures StdValue(StdUnit(v)) == Some(v) && StdUnit(v) != PAD && !IsBlank(StdUnit(v))
    ensures FromUrl(ToUrl(StdUnit(v))) == StdUnit(v)
    ensures UrlUnit(ToUrl(StdUnit(v)))
  {
  }

  lemma ValuesOfText(vs: seq<Sextet>)
    ensures IsStd(StdText(vs)) && Values(StdText(vs)) == vs
  {
  }

  lemma UrlThereAndBack(vs: seq<Sextet>)
    ensures Each(Each(StdText(vs), ToUrl), FromUrl) == StdText(vs)
  {
  }

  lemma PaddedText(vs: seq<Sextet>, n: nat)
    ensures PAD !in StdText(vs)
    ensures WithoutBlanks(StdText(vs) + Pads(n)) == StdText(vs) + Pads(n)
  {
    hide StdUnit, WithoutBlanks;
    forall i | 0 <= i < |vs| ensures StdUnit(vs[i]) != PAD && !IsBlank(StdUnit(vs[i])) {
      SextetUnits(vs[i]);
    }
    NoBlanks(StdText(vs) + Pads(n));
  }

  // A text of sextets padded to a multiple of four decodes to their octets.
  lemma AtobText(vs: seq<Sextet>, n: nat)
    requires n <= 2 && (|vs| + n) % 4 == 0
    ensures Atob(StdText(vs) + Pads(n)) == Some(Octets(vs))
  {
    hide *;
    PaddedText(vs, n);
    PadsDropped(StdText(vs), n);
    ValuesOfText(vs);
    AtobIs(StdText(vs) + Pads(n), StdText(vs));
  }

  lemma AtobIs(s: Str, body: Str)
    requires WithoutPads(WithoutBlanks(s)) == body && |body| % 4 != 1 && IsStd(body)
    ensures Atob(s) == Some(Octets(Values(body)))
  {
  }

  lemma DecodeIs(s: Str)
    requires |s| % 4 != 1
    ensures Decode(s) == Atob(Each(s, FromUrl) + Pads((4 - |s| % 4) % 4))
  {
    assert Ascii("===")[(|s| + 3) % 4..] == Pads((4 - |s| % 4) % 4);
  }

  // Full octets never leave a single sextet.
  lemma SextetCount(n: nat)
    ensures (var m := (4 * n + 2) / 3; m % 4 != 1 && (m + (4 - m % 4) % 4) % 4 == 0 && (4 - m % 4) % 4 <= 2)
  {
  }

  /** Decoding undoes encoding, for every byte sequence. */
  lemma DecodeEncode(b: Bytes)
    ensures Decode(Encode(b)) == Some(b)
  {
    hide *;
    var vs := Sextets(b);
    EncodeText(b);
    SextetCount(|b|);
    DecodeIs(Encode(b));
    UrlThereAndBack(vs);
    AtobText(vs, (4 - |vs| % 4) % 4);
    OctetsOfSextets(b);
  }
}
