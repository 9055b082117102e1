/**
 The signed `state` of the single-sign-on round trip: minted with a nonce, a time
 and a return path, and verified when the identity provider sends it back.
 */
module SsoState {
  import opened Options
  import opened JsText
  import opened JsNumber
  import opened Json
  import opened Base64

  const SSO_STATE_TTL_MS := 300_000
  const MAX_SKEW_MS := 60_000
  const MAX_STATE := 4096
  const MAX_NEXT := 512
  const SLASH: Unit := 0x2F

  type Hmac = (Str, Str) -> Mac

  type Nonce = m: Bytes | |m| == 16 witness seq(16, _ => 0)

  // The largest time a Date can hold.
  type Instant = t: int | 0 <= t <= 8_640_000_000_000_000

  datatype Payload = Payload(nonce: Str, ts: int, next: Str)

  // JSON.parse and the three type checks: None when it throws or a field has the wrong type.
  type Parser = Str -> Option<Payload>

  // `JSON.stringify({ nonce, ts, next })`.
  function Print(nonce: Str, ts: Instant, next: Str): Str {
    Ascii("{\"nonce\":") + Quote(nonce) + Ascii(",\"ts\":") + Decimal(ts) + Ascii(",\"next\":") + Quote(next) + [RBRACE]
  }

  // Only a path on this site is kept.
  function SanitizeNext(next: Str): (r: Str)
    ensures r != [] && r[0] == SLASH && |r| <= MAX_NEXT
  {
    if next == [] || next[0] != SLASH then [SLASH]
    else if |next| >= 2 && next[1] == SLASH then [SLASH]
    else if |next| > MAX_NEXT then [SLASH]
    else if 0x0D in next || 0x0A in next then [SLASH]
    else next
  }

  predicate IsLatin1(s: Str) {
    forall i :: 0 <= i < |s| ==> s[i] < 256
  }

  // `btoa` of a string: it throws on a unit above 255.
  function B64urlEncode(s: Str): Option<Str> {
    if IsLatin1(s) then Some(Encode(s)) else None
  }

  function Mint(hmac: Hmac, secret: Str, nonce: Nonce, next: Str, now: Instant): Option<Str> {
    match B64urlEncode(Print(Encode(nonce), now, SanitizeNext(next)))
    case None => None
    case Some(payload) => Some(payload + [DOT] + Encode(hmac(secret, payload)))
  }

  // `s.indexOf(".")`.
  function IndexOfDot(s: Str): (r: Option<nat>)
    ensures r.Some? ==> r.value < |s| && s[r.value] == DOT && forall k :: 0 <= k < r.value ==> s[k] != DOT
    ensures r.None? ==> DOT !in s
  {
    if s == [] then None
    else if s[0] == DOT then Some(0)
    else
      assert s == [s[0]] + s[1..];
      match IndexOfDot(s[1..]) { case None => None case Some(i) => Some(i + 1) }
  }

  // `a ^ b` and `a | b` on code units, bit by bit.
  function Xor(a: nat, b: nat): nat {
    if a == 0 && b == 0 then 0 else (a % 2 + b % 2) % 2 + 2 * Xor(a / 2, b / 2)
  }

  function Or(a: nat, b: nat): nat {
    if a == 0 && b == 0 then 0 else (if a % 2 == 1 || b % 2 == 1 then 1 else 0) + 2 * Or(a / 2, b / 2)
  }

  lemma {:induction false} XorZero(a: nat, b: nat)
    ensures Xor(a, b) == 0 <==> a == b
  {
    if a != 0 || b != 0 { XorZero(a / 2, b / 2); }
  }

  lemma {:induction false} OrZero(a: nat, b: nat)
    ensures Or(a, b) == 0 <==> a == 0 && b == 0
  {
    if a != 0 || b != 0 { OrZero(a / 2, b / 2); }
  }

  // Bit k, counted from the lowest.
  function Bit(n: nat, k: nat): bool {
    if k == 0 then n % 2 == 1 else Bit(n / 2, k - 1)
  }

  /** Bit by bit, they are exclusive and inclusive or. */
  lemma {:induction false} BitsOf(a: nat, b: nat, k: nat)
    ensures Bit(Xor(a, b), k) <==> (Bit(a, k) != Bit(b, k))
    ensures Bit(Or(a, b), k) <==> Bit(a, k) || Bit(b, k)
    decreases k
  {
    if k > 0 {
      BitsOf(a / 2, b / 2, k - 1);
      NoBits(k);
    }
  }

  lemma {:induction false} NoBits(k: nat)
    ensures !Bit(0, k)
  {
    if k > 0 { NoBits(k - 1); }
  }

  method ConstantTimeEq(a: Str, b: Str) returns (eq: bool)
    ensures eq <==> a == b
  {
    if |a| != |b| { return false; }
    var diff := 0;
    for i := 0 to |a|
      invariant diff >= 0
      invariant diff == 0 <==> a[..i] == b[..i]
    {
      XorZero(a[i], b[i]);
      OrZero(diff, Xor(a[i], b[i]));
      assert a[..i + 1] == a[..i] + [a[i]] && b[..i + 1] == b[..i] + [b[i]];
      diff := Or(diff, Xor(a[i], b[i]));
    }
    assert a[..|a|] == a && b[..|b|] == b;
    return diff == 0;
  }

  function Verify(hmac: Hmac, parse: Parser, secret: Str, state: Str, now: int): Option<Payload> {
    if state == [] || |state| > MAX_STATE then None
    else
      match IndexOfDot(state)
      case None => None
      case Some(dot) =>
        var payload, sig := state[..dot], state[dot + 1..];
        if sig != Encode(hmac(secret, payload)) then None
        else
          match Decode(payload)
          case None => None
          case Some(text) =>
            match parse(text)
            case None => None
            case Some(p) =>
              if now - p.ts > SSO_STATE_TTL_MS then None
              else if now - p.ts < -MAX_SKEW_MS then None
              else Some(p)
  }

  // ---------- which states and paths are accepted ----------

  // A path on this site: one slash first, no line end in it, not too long.
  predicate SitePath(next: Str) {
    && 0 < |next| <= 512 && next[0] == '/' as int && (|next| > 1 ==> next[1] != '/' as int)
    && forall i :: 0 <= i < |next| ==> next[i] != 0x0D && next[i] != 0x0A
  }

  /** What is kept is always a path on this site, and such a path is kept as it is. */
  lemma SanitizedExactly(next: Str)
    ensures SitePath(SanitizeNext(next))
    ensures SanitizeNext(next) == if SitePath(next) then next else [SLASH]
  {
    assert 0x0D in next <==> exists i :: 0 <= i < |next| && next[i] == 0x0D;
    assert 0x0A in next <==> exists i :: 0 <= i < |next| && next[i] == 0x0A;
  }

  // The state is a payload without a dot, a dot, and the payload's code, and the payload says p.
  predicate Carries(hmac: Hmac, parse: Parser, secret: Str, state: Str, payload: Str, sig: Str, p: Payload) {
    && DOT !in payload && state == payload + [DOT] + sig && sig == Encode(hmac(secret, payload))
    && Decode(payload).Some? && parse(Decode(payload).value) == Some(p)
  }

  /**
   A state is accepted as a payload if and only if it is no longer than 4096 units,
   what follows its first dot is the encoded code of what stands before it, that
   part decodes to the payload, and the payload is at most five minutes old and at
   most one minute ahead.
   */
  lemma AcceptedExactly(hmac: Hmac, parse: Parser, secret: Str, state: Str, now: int, p: Payload)
    ensures Verify(hmac, parse, secret, state, now) == Some(p) <==>
            && |state| <= 4096
            && -60_000 <= now - p.ts <= 300_000
            && exists payload, sig :: Carries(hmac, parse, secret, state, payload, sig, p)
  {
    hide Encode, Decode;
    if Verify(hmac, parse, secret, state, now) == Some(p) {
      var dot := IndexOfDot(state).value;
      var payload, sig := state[..dot], state[dot + 1..];
      assert state == payload + [DOT] + sig && DOT !in payload;
      assert Carries(hmac, parse, secret, state, payload, sig, p);
    }
    if payload, sig :| Carries(hmac, parse, secret, state, payload, sig, p) {
      FirstDot(payload, sig);
    }
  }

  lemma FirstDot(x: Str, y: Str)
    requires DOT !in x
    ensures (var s := x + [DOT] + y; IndexOfDot(s) == Some(|x|) && s[..|x|] == x && s[|x| + 1..] == y)
  {
    var s := x + [DOT] + y;
    assert s[|x|] == DOT && DOT in s;
    assert forall i :: 0 <= i < |x| ==> s[i] == x[i];
  }

  /** A state whose payload is not the minted one is refused under the minted code, unless the two payloads share it. */
  lemma ForgedIsRefused(hmac: Hmac, parse: Parser, secret: Str, minted: Str, forged: Str, now: int)
    requires DOT !in forged && forged != minted
    ensures || Verify(hmac, parse, secret, forged + [DOT] + Encode(hmac(secret, minted)), now).None?
            || hmac(secret, forged) == hmac(secret, minted)
  {
    hide Encode, Decode;
    FirstDot(forged, Encode(hmac(secret, minted)));
    DecodeEncode(hmac(secret, minted));
    DecodeEncode(hmac(secret, forged));
  }

  // ---------- what can be minted ----------

  lemma Latin1Concat(a: Str, b: Str)
    ensures IsLatin1(a + b) <==> IsLatin1(a) && IsLatin1(b)
  {
    assert forall i :: 0 <= i < |a| ==> (a + b)[i] == a[i];
    assert forall i :: 0 <= i < |b| ==> (a + b)[|a| + i] == b[i];
  }

  // Unit i of a path reaches `btoa` as something it accepts: lone surrogates are escaped before.
  predicate Encodable(s: Str, i: nat)
    requires i < |s|
  {
    s[i] < 256 || ((IsHigh(s[i]) || IsLow(s[i])) && !Paired(s, i))
  }

  lemma {:induction false} EscapeLatin1(s: Str, i: nat)
    requires i <= |s|
    ensures IsLatin1(EscapeFrom(s, i)) <==> forall j :: i <= j < |s| ==> Encodable(s, j)
    decreases |s| - i
  {
    hide *;
    if i == |s| {
      NothingEscaped(s);
    } else {
      EscapeLatin1(s, i + 1);
      UnitFirst(s, i);
    }
  }

  lemma NothingEscaped(s: Str)
    ensures IsLatin1(EscapeFrom(s, |s|))
  {
  }

  lemma UnitFirst(s: Str, i: nat)
    requires i < |s|
    ensures IsLatin1(EscapeFrom(s, i)) <==> Encodable(s, i) && IsLatin1(EscapeFrom(s, i + 1))
  {
    hide *;
    EscapesUnit(s, i);
    Latin1Concat(Token(s[i], Paired(s, i)), EscapeFrom(s, i + 1));
    UnitLatin1(s, i);
  }

  lemma EscapesUnit(s: Str, i: nat)
    requires i < |s|
    ensures EscapeFrom(s, i) == Token(s[i], Paired(s, i)) + EscapeFrom(s, i + 1)
  {
  }

  lemma UnitLatin1(s: Str, i: nat)
    requires i < |s|
    ensures IsLatin1(Token(s[i], Paired(s, i))) <==> Encodable(s, i)
  {
    hide Token, IsLatin1, Paired;
    TokenLatin1(s[i], Paired(s, i));
  }

  lemma TokenLatin1(u: Unit, paired: bool)
    ensures IsLatin1(Token(u, paired)) <==> u < 256 || ((IsHigh(u) || IsLow(u)) && !paired)
  {
    assert forall v: nat :: v < 16 ==> HexDigit(v) < 256;
  }

  predicate Unescaped(u: Unit) {
    u >= 0x20 && u != QUOTE && u != BACKSLASH && !IsHigh(u) && !IsLow(u)
  }

  lemma {:induction false} EscapePlain(s: Str, i: nat)
    requires i <= |s| && forall j :: i <= j < |s| ==> Unescaped(s[j])
    ensures EscapeFrom(s, i) == s[i..]
    decreases |s| - i
  {
    if i < |s| { EscapePlain(s, i + 1); }
  }

  lemma NonceQuoted(nonce: Nonce)
    ensures Quote(Encode(nonce)) == [QUOTE] + Encode(nonce) + [QUOTE]
    ensures |Encode(nonce)| == 22 && IsLatin1(Encode(nonce))
  {
    hide Encode, EscapeFrom;
    EncodeAlphabet(nonce);
    var s := Encode(nonce);
    forall i | 0 <= i < |s| ensures s[i] < 256 && Unescaped(s[i]) { assert UrlUnit(s[i]); }
    EscapePlain(s, 0);
  }

  lemma PrintLatin1(nonce: Nonce, ts: Instant, next: Str)
    ensures IsLatin1(Print(Encode(nonce), ts, next)) <==> forall j :: 0 <= j < |next| ==> Encodable(next, j)
  {
    hide Encode, EscapeFrom, IsLatin1, Encodable;
    NonceQuoted(nonce);
    EscapeLatin1(next, 0);
    var a, q := Ascii("{\"nonce\":"), Quote(Encode(nonce));
    var b, d, c := Ascii(",\"ts\":"), Decimal(ts), Ascii(",\"next\":");
    AsciiLatin1(a); AsciiLatin1(b); AsciiLatin1(c); AsciiLatin1([QUOTE]); AsciiLatin1([RBRACE]); AsciiLatin1(d);
    Latin1Concat([QUOTE] + Encode(nonce), [QUOTE]);
    Latin1Concat([QUOTE], Encode(nonce));
    Latin1Concat([QUOTE] + EscapeFrom(next, 0), [QUOTE]);
    Latin1Concat([QUOTE], EscapeFrom(next, 0));
    Latin1Concat(a, q);
    Latin1Concat(a + q, b);
    Latin1Concat(a + q + b, d);
    Latin1Concat(a + q + b + d, c);
    Latin1Concat(a + q + b + d + c, Quote(next));
    Latin1Concat(a + q + b + d + c + Quote(next), [RBRACE]);
  }

  lemma AsciiLatin1(s: Str)
    requires forall i :: 0 <= i < |s| ==> s[i] < 0x80
    ensures IsLatin1(s)
  {
  }

  /** Minting throws exactly when the kept path holds a unit above U+00FF that is not a lone surrogate. */
  lemma MintThrowsExactly(hmac: Hmac, secret: Str, nonce: Nonce, next: Str, now: Instant)
    ensures (var path := SanitizeNext(next);
             Mint(hmac, secret, nonce, next, now).None? <==> exists j :: 0 <= j < |path| && !Encodable(path, j))
  {
    hide Print, Encode, SanitizeNext, IsLatin1, Encodable;
    PrintLatin1(nonce, now, SanitizeNext(next));
  }

  // ---------- the round trip ----------

  lemma MintedText(hmac: Hmac, secret: Str, nonce: Nonce, next: Str, now: Instant)
    requires Mint(hmac, secret, nonce, next, now).Some?
    ensures (var json, state := Print(Encode(nonce), now, SanitizeNext(next)), Mint(hmac, secret, nonce, next, now).value;
             && IsLatin1(json)
             && state == Encode(json) + [DOT] + Encode(hmac(secret, Encode(json)))
             && DOT !in Encode(json)
             && |state| == (4 * |json| + 2) / 3 + 44)
  {
    hide Print, Encode, SanitizeNext;
    var json := Print(Encode(nonce), now, SanitizeNext(next));
    EncodeAlphabet(json);
    EncodeAlphabet(hmac(secret, Encode(json)));
  }

  // The most units the escaped path and the time may take up together.
  const MAX_ESCAPED := 2989

  predicate Fits(path: Str, minted: Instant) {
    |EscapeFrom(path, 0)| + |Decimal(minted)| <= MAX_ESCAPED
  }

  lemma PrintLength(nonce: Nonce, ts: Instant, next: Str)
    ensures |Print(Encode(nonce), ts, next)| == |EscapeFrom(next, 0)| + |Decimal(ts)| + 50
  {
    hide Encode, EscapeFrom, Decimal;
    NonceQuoted(nonce);
  }

  lemma StateFits(hmac: Hmac, secret: Str, nonce: Nonce, next: Str, minted: Instant)
    requires Mint(hmac, secret, nonce, next, minted).Some?
    ensures |Mint(hmac, secret, nonce, next, minted).value| <= MAX_STATE <==> Fits(SanitizeNext(next), minted)
  {
    hide Print, Encode, IsLatin1, Mint, SanitizeNext, EscapeFrom, Decimal;
    MintedText(hmac, secret, nonce, next, minted);
    PrintLength(nonce, minted, SanitizeNext(next));
  }

  /**
   A minted state verifies to its payload exactly when the escaped path and the
   time left it short enough, and it comes back within its lifetime or at most a
   minute early.
   */
  lemma MintVerify(hmac: Hmac, parse: Parser, secret: Str, nonce: Nonce, next: Str, minted: Instant, now: int)
    requires Mint(hmac, secret, nonce, next, minted).Some?
    requires (var p := Payload(Encode(nonce), minted, SanitizeNext(next));
              parse(Print(p.nonce, minted, p.next)) == Some(p))
    ensures Verify(hmac, parse, secret, Mint(hmac, secret, nonce, next, minted).value, now) ==
            if Fits(SanitizeNext(next), minted) && -MAX_SKEW_MS <= now - minted <= SSO_STATE_TTL_MS
            then Some(Payload(Encode(nonce), minted, SanitizeNext(next))) else None
  {
    hide Print, Encode, Decode, SanitizeNext, IndexOfDot, Mint, Fits;
    MintedText(hmac, secret, nonce, next, minted);
    StateFits(hmac, secret, nonce, next, minted);
    var json := Print(Encode(nonce), minted, SanitizeNext(next));
    var payload := Encode(json);
    var sig := Encode(hmac(secret, payload));
    var state := payload + [DOT] + sig;
    FirstDot(payload, sig);
    assert state[..|payload|] == payload && state[|payload| + 1..] == sig;
    DecodeEncode(json);
  }

  // ---------- which paths fit ----------

  lemma {:induction false} DecimalLength(n: nat, k: nat)
    requires k >= 1 && n < Power10(k)
    ensures |Decimal(n)| <= k
  {
    if n >= 10 { DecimalLength(n / 10, k - 1); }
  }

  function Power10(k: nat): nat {
    if k == 0 then 1 else 10 * Power10(k - 1)
  }

  lemma {:induction false} EscapesDouble(s: Str, i: nat)
    requires i <= |s|
    requires forall j :: i <= j < |s| ==> |Token(s[j], Paired(s, j))| <= 2
    ensures |EscapeFrom(s, i)| <= 2 * (|s| - i)
    decreases |s| - i
  {
    if i < |s| {
      hide Token, Paired;
      EscapesDouble(s, i + 1);
    }
  }

  lemma {:induction false} EscapesSixfold(s: Str, i: nat)
    requires i <= |s|
    requires forall j :: i <= j < |s| ==> |Token(s[j], Paired(s, j))| == 6
    ensures |EscapeFrom(s, i)| == 6 * (|s| - i)
    decreases |s| - i
  {
    if i < |s| {
      hide Token, Paired;
      EscapesSixfold(s, i + 1);
    }
  }

  lemma InstantLength(t: Instant)
    ensures |Decimal(t)| <= 16
  {
    hide Decimal;
    assert Power10(4) == 10_000;
    assert Power10(8) == 100_000_000;
    assert Power10(12) == 1_000_000_000_000;
    assert Power10(16) == 10_000_000_000_000_000;
    DecimalLength(t, 16);
  }

  /** A path without control characters and surrogates always fits, so only its lifetime can end its state. */
  lemma OrdinaryPathsFit(next: Str, minted: Instant)
    requires forall u <- SanitizeNext(next) :: 0x20 <= u < 0xD800 || 0xE000 <= u
    ensures Fits(SanitizeNext(next), minted)
  {
    hide SanitizeNext, Decimal;
    var path := SanitizeNext(next);
    InstantLength(minted);
    forall j | 0 <= j < |path| ensures |Token(path[j], Paired(path, j))| <= 2 {
      assert path[j] in path;
    }
    EscapesDouble(path, 0);
  }

  // A slash and 511 times U+0001: an accepted path whose escapes are six units each.
  function ControlPath(): (s: Str)
    ensures |s| == MAX_NEXT && forall i :: 0 <= i < |s| ==> s[i] == if i == 0 then SLASH else 1
  {
    seq(MAX_NEXT, i => if i == 0 then SLASH else 1)
  }

  lemma ControlPathLong()
    ensures |EscapeFrom(ControlPath(), 0)| == 1 + 6 * (MAX_NEXT - 1)
  {
    hide ControlPath, Token, Paired, EscapeFrom;
    var path := ControlPath();
    SlashAndControl(true);
    SlashAndControl(false);
    EscapesSixfold(path, 1);
    EscapesUnit(path, 0);
  }

  lemma SlashAndControl(paired: bool)
    ensures |Token(SLASH, paired)| == 1 && |Token(1, paired)| == 6
  {
  }

  /** The length guard does cut off some paths that sanitising keeps: their own state is refused at once. */
  lemma ControlPathRefused(hmac: Hmac, parse: Parser, secret: Str, nonce: Nonce, now: Instant)
    ensures SanitizeNext(ControlPath()) == ControlPath()
    ensures (var state := Mint(hmac, secret, nonce, ControlPath(), now);
             state.Some? && Verify(hmac, parse, secret, state.value, now) == None)
  {
    hide Print, Encode, IsLatin1, Mint, ControlPath, EscapeFrom, Decimal;
    var path := ControlPath();
    assert forall i :: 0 <= i < |path| ==> Encodable(path, i);
    MintThrowsExactly(hmac, secret, nonce, path, now);
    ControlPathLong();
    StateFits(hmac, secret, nonce, path, now);
  }
}
