/**
 Session tokens: sign a session, verify a token. Hashing, UTF-8, JSON text and
 date parsing are the host's; what is assumed of them is stated where it is used.
 */
module SessionToken {
  import opened Options
  import opened JsText
  import opened JsNumber
  import opened Json
  import opened Base64

  datatype Host = Host(
    hmac: (Str, Str) -> Mac,          // HMAC-SHA-256 of a text under a secret
    utf8: Str -> Bytes,               // TextEncoder
    fromUtf8: Bytes -> Str,           // TextDecoder
    jsonText: Value -> Str,           // JSON.stringify
    jsonValue: Str -> Option<Value>,  // JSON.parse; None when it throws
    dateParse: Str -> Option<int>)    // Date.parse; None for NaN

  function Get(v: Value, key: Str): Value {
    if v.Obj? && key in Keys(v.fields) then v.fields[IndexOf(v.fields, key)].value else Other
  }

  function TokenHeader(): Value {
    Obj([Field(Ascii("alg"), Text(Ascii("HS256"))), Field(Ascii("typ"), Text(Ascii("RA-SESSION"))),
         Field(Ascii("v"), Num(Finite(false, Ascii("1"), 1)))])
  }

  predicate IsTokenHeader(v: Value) {
    && Get(v, Ascii("alg")) == Text(Ascii("HS256"))
    && Get(v, Ascii("typ")) == Text(Ascii("RA-SESSION"))
  }

  lemma HeaderAccepted()
    ensures IsTokenHeader(TokenHeader())
  {
    var fields := TokenHeader().fields;
    assert Keys(fields)[0] == Ascii("alg") && Keys(fields)[1] == Ascii("typ");
    assert |Ascii("alg")| == 3 && Ascii("alg")[0] == 0x61;
    assert |Ascii("typ")| == 3 && Ascii("typ")[0] == 0x74;
    assert |Ascii("v")| == 1;
    assert Get(TokenHeader(), Ascii("alg")) == Text(Ascii("HS256"));
    assert IndexOf(fields, Ascii("typ")) == 1;
  }

  const USER_ID := Ascii("userId")
  const EMAIL := Ascii("email")
  const DISPLAY_NAME := Ascii("displayName")
  const TENANT_ID := Ascii("tenantId")
  const ROLES := Ascii("roles")
  const EXPIRES_AT := Ascii("expiresAt")
  const ISSUED_AT := Ascii("issuedAt")

  predicate IsPlausible(v: Value) {
    && Get(v, USER_ID).Text? && Get(v, EMAIL).Text? && Get(v, DISPLAY_NAME).Text?
    && Get(v, TENANT_ID).Text? && Get(v, ROLES).Arr?
    && Get(v, EXPIRES_AT).Text? && Get(v, ISSUED_AT).Text?
  }

  predicate Expired(host: Host, v: Value, now: int)
    requires IsPlausible(v)
  {
    var at := host.dateParse(Get(v, EXPIRES_AT).s);
    at.None? || at.value <= now
  }

  function Joined(a: Str, b: Str): Str {
    a + [DOT] + b
  }

  function Pack(host: Host, v: Value): Str {
    Encode(host.utf8(host.jsonText(v)))
  }

  function Unpack(host: Host, s: Str): Option<Value> {
    match Decode(s)
    case None => None
    case Some(b) => host.jsonValue(host.fromUtf8(b))
  }

  function Sign(host: Host, secret: Str, session: Value): Str {
    var input := Joined(Pack(host, TokenHeader()), Pack(host, session));
    Joined(input, Encode(host.hmac(secret, input)))
  }

  function Verify(host: Host, secret: Str, token: Str, now: int): Option<Value> {
    var parts := Split(token, DOT);
    if |parts| != 3 then None
    else
      var header := Unpack(host, parts[0]);
      if header.None? || !IsTokenHeader(header.value) then None
      else if Decode(parts[2]) != Some(host.hmac(secret, Joined(parts[0], parts[1]))) then None
      else
        var payload := Unpack(host, parts[1]);
        if payload.None? || !IsPlausible(payload.value) || Expired(host, payload.value, now) then None
        else payload
  }

  // JSON and UTF-8 give this value back.
  ghost predicate Survives(host: Host, v: Value) {
    host.fromUtf8(host.utf8(host.jsonText(v))) == host.jsonText(v) && host.jsonValue(host.jsonText(v)) == Some(v)
  }

  lemma UnpackPack(host: Host, v: Value)
    requires Survives(host, v)
    ensures Unpack(host, Pack(host, v)) == Some(v)
  {
    DecodeEncode(host.utf8(host.jsonText(v)));
  }

  /** A signed token is exactly three parts, none of them with a dot in it. */
  lemma TokenParts(host: Host, secret: Str, session: Value)
    ensures (var h, p := Pack(host, TokenHeader()), Pack(host, session);
             Split(Sign(host, secret, session), DOT) == [h, p, Encode(host.hmac(secret, Joined(h, p)))])
  {
    hide Encode, Split;
    var h, p := Pack(host, TokenHeader()), Pack(host, session);
    var s := Encode(host.hmac(secret, Joined(h, p)));
    EncodeAlphabet(host.utf8(host.jsonText(TokenHeader())));
    EncodeAlphabet(host.utf8(host.jsonText(session)));
    EncodeAlphabet(host.hmac(secret, Joined(h, p)));
    assert Sign(host, secret, session) == h + [DOT] + (p + [DOT] + s);
    SplitAtFirst(h, p + [DOT] + s, DOT);
    SplitAtFirst(p, s, DOT);
    SplitNone(s, DOT);
  }

  /**
   A signed session verifies to itself exactly as long as it is plausible and
   unexpired; after that the token is refused.
   */
  lemma SignVerify(host: Host, secret: Str, session: Value, now: int)
    requires Survives(host, TokenHeader()) && Survives(host, session)
    ensures Verify(host, secret, Sign(host, secret, session), now) ==
            if IsPlausible(session) && !Expired(host, session, now) then Some(session) else None
  {
    hide Encode, Decode, Split, Pack, Unpack, Sign, TokenHeader, IsTokenHeader, IsPlausible, Expired, Survives;
    TokenParts(host, secret, session);
    HeaderAccepted();
    UnpackPack(host, TokenHeader());
    UnpackPack(host, session);
    DecodeEncode(host.hmac(secret, Joined(Pack(host, TokenHeader()), Pack(host, session))));
  }

  // ---------- which tokens are accepted ----------

  // The token is these three parts with dots between.
  predicate Cut(token: Str, head: Str, payload: Str, sig: Str) {
    DOT !in head && DOT !in payload && DOT !in sig && token == head + [DOT] + payload + [DOT] + sig
  }

  // The three parts of a token that is to be accepted as v.
  ghost predicate Vouches(host: Host, secret: Str, head: Str, payload: Str, sig: Str, v: Value, now: int) {
    && (var h := Unpack(host, head);
        && h.Some? && Get(h.value, Ascii("alg")) == Text(Ascii("HS256"))
        && Get(h.value, Ascii("typ")) == Text(Ascii("RA-SESSION")))
    && Decode(sig) == Some(host.hmac(secret, head + [DOT] + payload))
    && Decode(payload).Some? && host.jsonValue(host.fromUtf8(Decode(payload).value)) == Some(v)
    && (forall key :: key in {USER_ID, EMAIL, DISPLAY_NAME, TENANT_ID, EXPIRES_AT, ISSUED_AT} ==> Get(v, key).Text?)
    && Get(v, ROLES).Arr?
    && (var at := host.dateParse(Get(v, EXPIRES_AT).s); at.Some? && now < at.value)
  }

  /**
   A token is accepted as a session if and only if it has three parts of which the
   last decodes to the code of the first two, the first is a token header, and the
   middle one decodes to that session, plausible and not expired.
   */
  lemma AcceptedExactly(host: Host, secret: Str, token: Str, v: Value, now: int)
    ensures Verify(host, secret, token, now) == Some(v) <==>
            exists head, payload, sig :: Cut(token, head, payload, sig) && Vouches(host, secret, head, payload, sig, v, now)
  {
    hide Split, Vouches, Verify;
    var parts := Split(token, DOT);
    SplitWhole(token, DOT);
    if Verify(host, secret, token, now) == Some(v) {
      ThreeParts(host, secret, token, v, now);
      ThreeJoined(parts[0], parts[1], parts[2], DOT);
      assert parts[0] in parts && parts[1] in parts && parts[2] in parts;
      PartsAccepted(host, secret, token, parts[0], parts[1], parts[2], v, now);
    }
    if head, payload, sig :| Cut(token, head, payload, sig) && Vouches(host, secret, head, payload, sig, v, now) {
      SplitThree(head, payload, sig, DOT);
      PartsAccepted(host, secret, token, head, payload, sig, v, now);
    }
  }

  lemma ThreeParts(host: Host, secret: Str, token: Str, v: Value, now: int)
    requires Verify(host, secret, token, now) == Some(v)
    ensures (var parts := Split(token, DOT); |parts| == 3 && parts == [parts[0], parts[1], parts[2]])
  {
    hide Split, Decode, Unpack, IsPlausible, IsTokenHeader, Expired;
  }

  lemma PartsAccepted(host: Host, secret: Str, token: Str, head: Str, payload: Str, sig: Str, v: Value, now: int)
    requires Split(token, DOT) == [head, payload, sig]
    ensures Verify(host, secret, token, now) == Some(v) <==> Vouches(host, secret, head, payload, sig, v, now)
  {
    hide Decode, Split, Get;
  }

  /** A token whose header or payload is not the signed one is refused, unless the two signed texts have one code. */
  lemma ForgedIsRefused(host: Host, secret: Str, session: Value, head: Str, payload: Str, now: int)
    requires DOT !in head && DOT !in payload
    requires (head, payload) != (Pack(host, TokenHeader()), Pack(host, session))
    ensures (var h, p := Pack(host, TokenHeader()), Pack(host, session);
             var sig := Encode(host.hmac(secret, h + [DOT] + p));
             && Sign(host, secret, session) == h + [DOT] + p + [DOT] + sig
             && (|| Verify(host, secret, head + [DOT] + payload + [DOT] + sig, now).None?
                 || (head + [DOT] + payload != h + [DOT] + p
                     && host.hmac(secret, head + [DOT] + payload) == host.hmac(secret, h + [DOT] + p))))
  {
    hide Encode, Decode, Split, IsPlausible, Get, Pack, Unpack, TokenHeader, Expired, IsTokenHeader;
    var h, p := Pack(host, TokenHeader()), Pack(host, session);
    var mac := host.hmac(secret, h + [DOT] + p);
    PackDotless(host, TokenHeader());
    PackDotless(host, session);
    EncodeAlphabet(mac);
    SplitThree(head, payload, Encode(mac), DOT);
    DecodeEncode(mac);
    if head + [DOT] + payload == h + [DOT] + p {
      assert head + ([DOT] + payload) == head + [DOT] + payload && h + ([DOT] + p) == h + [DOT] + p;
      CutUnique(head, payload, h, p, DOT);
    }
  }

  lemma PackDotless(host: Host, v: Value)
    ensures DOT !in Pack(host, v)
  {
    hide Encode;
    EncodeAlphabet(host.utf8(host.jsonText(v)));
  }
}
