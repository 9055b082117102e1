/**
 Audit rows and the canonical text of a row's body, the text that is hashed.
 Two bodies have the same text exactly when they are the same body.
 */
module AuditRow {
  import opened Options
  import opened JsText
  import opened Json
  import opened JsonReader
  import opened Sequences

  datatype Body = Body(
    id: Str, tenantId: Str, actorId: Str, actorKind: Str, action: Str,
    targetType: Str, targetId: Str, before: Value, after: Value,
    correlationId: Option<Str>, ip: Option<Str>, userAgent: Option<Str>,
    occurredAt: Str)

  datatype Row = Row(body: Body, prevHash: Str, rowHash: Str) {
    // A row from before the chain existed: the verifier skips it.
    predicate Sentinel() { prevHash == PRE_CHAIN_SENTINEL }
  }

  const PRE_CHAIN_SENTINEL: Str := Ascii("__PRE_CHAIN__")

  // ---------- canonical bodies ----------

  function OrNull(o: Option<Str>): Value {
    match o case None => Null case Some(s) => Text(s)
  }

  // The row object: thirteen named values.
  function Fields(b: Body): seq<Field> {
    [ Field(Ascii("id"), Text(b.id)),
      Field(Ascii("tenantId"), Text(b.tenantId)),
      Field(Ascii("actorId"), Text(b.actorId)),
      Field(Ascii("actorKind"), Text(b.actorKind)),
      Field(Ascii("action"), Text(b.action)),
      Field(Ascii("targetType"), Text(b.targetType)),
      Field(Ascii("targetId"), Text(b.targetId)),
      Field(Ascii("before"), b.before),
      Field(Ascii("after"), b.after),
      Field(Ascii("correlationId"), OrNull(b.correlationId)),
      Field(Ascii("ip"), OrNull(b.ip)),
      Field(Ascii("userAgent"), OrNull(b.userAgent)),
      Field(Ascii("occurredAt"), Text(b.occurredAt)) ]
  }

  function Canonicalise(b: Body): Str {
    Stringify(Obj(Fields(b)))
  }

  // The same body, up to key order and null coercions inside the two snapshots.
  ghost predicate SameBody(a: Body, b: Body) {
    && a.id == b.id && a.tenantId == b.tenantId && a.actorId == b.actorId
    && a.actorKind == b.actorKind && a.action == b.action
    && a.targetType == b.targetType && a.targetId == b.targetId
    && Equiv(a.before, b.before) && Equiv(a.after, b.after)
    && a.correlationId == b.correlationId && a.ip == b.ip && a.userAgent == b.userAgent
    && a.occurredAt == b.occurredAt
  }

  ghost predicate ValidBody(b: Body) { WellFormed(b.before) && WellFormed(b.after) }

  ghost predicate ValidRows(rows: seq<Row>) { forall r :: r in rows ==> ValidBody(r.body) }

  lemma NamesDistinct(b: Body)
    ensures |Fields(b)| == 13 && Distinct(Keys(Fields(b)))
  {
    var fs := Fields(b);
    // length and second letter tell the thirteen names apart
    assert |fs[0].key| == |fs[10].key| == 2 && fs[0].key[1] != fs[10].key[1];
    assert |fs[1].key| == |fs[6].key| == 8 && fs[1].key[1] != fs[6].key[1];
    assert |fs[3].key| == |fs[11].key| == 9 && fs[3].key[1] != fs[11].key[1];
    assert |fs[4].key| == |fs[7].key| == 6 && fs[4].key[1] != fs[7].key[1];
    assert |fs[5].key| == |fs[12].key| == 10 && fs[5].key[1] != fs[12].key[1];
    assert |fs[2].key| == 7 && |fs[8].key| == 5 && |fs[9].key| == 13;
  }

  lemma NamesSame(a: Body, b: Body)
    ensures Keys(Fields(a)) == Keys(Fields(b))
  {
    var fs, gs := Fields(a), Fields(b);
    assert forall i :: 0 <= i < 13 ==> fs[i].key == gs[i].key;
  }

  lemma {:induction false} OnlyIndex(fs: seq<Field>, i: nat)
    requires Distinct(Keys(fs)) && i < |fs|
    ensures fs[i].key in Keys(fs) && IndexOf(fs, fs[i].key) == i
  {
  }

  lemma SameNamesEquiv(fs: seq<Field>, gs: seq<Field>)
    requires Distinct(Keys(fs)) && Keys(fs) == Keys(gs)
    ensures Equiv(Obj(fs), Obj(gs)) <==> forall i :: 0 <= i < |fs| ==> Equiv(fs[i].value, gs[i].value)
  {
    forall i | 0 <= i < |fs|
      ensures Keys(fs)[i] in Keys(fs) && IndexOf(fs, Keys(fs)[i]) == i && IndexOf(gs, Keys(fs)[i]) == i
    {
      OnlyIndex(fs, i);
      OnlyIndex(gs, i);
    }
    if Equiv(Obj(fs), Obj(gs)) {
      forall i | 0 <= i < |fs|
        ensures Equiv(fs[i].value, gs[i].value)
      {
        var k := Keys(fs)[i];
        assert k in Keys(fs);
      }
    }
  }

  predicate Flat(v: Value) { v.Text? || v.Null? }

  lemma FlatAlike(v: Value, w: Value)
    requires Flat(v) && Flat(w)
    ensures Equiv(v, w) <==> v == w
  {
  }

  // Equivalence slot by slot: only the two snapshots, in slots 7 and 8, are not plain texts.
  lemma SlotsAlike(fs: seq<Field>, gs: seq<Field>)
    requires |fs| == |gs| == 13 && Keys(fs) == Keys(gs)
    requires forall i :: 0 <= i < 13 && i != 7 && i != 8 ==> Flat(fs[i].value) && Flat(gs[i].value)
    ensures (forall i :: 0 <= i < 13 ==> Equiv(fs[i].value, gs[i].value)) <==>
      fs[..7] == gs[..7] && Equiv(fs[7].value, gs[7].value) && Equiv(fs[8].value, gs[8].value) && fs[9..] == gs[9..]
  {
    forall i | 0 <= i < 13
      ensures fs[i].key == gs[i].key
      ensures i != 7 && i != 8 ==> (Equiv(fs[i].value, gs[i].value) <==> fs[i] == gs[i])
    {
      assert Keys(fs)[i] == Keys(gs)[i];
      if i != 7 && i != 8 { FlatAlike(fs[i].value, gs[i].value); }
    }
    if fs[..7] == gs[..7] && fs[9..] == gs[9..] {
      assert forall i :: 0 <= i < 7 ==> fs[i] == fs[..7][i] && gs[i] == gs[..7][i];
      assert forall i :: 9 <= i < 13 ==> fs[i] == fs[9..][i - 9] && gs[i] == gs[9..][i - 9];
    }
  }

  lemma FlatSlots(a: Body, b: Body)
    ensures Fields(a)[..7] == Fields(b)[..7] && Fields(a)[9..] == Fields(b)[9..] <==>
      && a.id == b.id && a.tenantId == b.tenantId && a.actorId == b.actorId
      && a.actorKind == b.actorKind && a.action == b.action
      && a.targetType == b.targetType && a.targetId == b.targetId
      && a.correlationId == b.correlationId && a.ip == b.ip && a.userAgent == b.userAgent
      && a.occurredAt == b.occurredAt
  {
    var x, y := Fields(a), Fields(b);
    if x[..7] == y[..7] && x[9..] == y[9..] {
      assert x[..7][0] == y[..7][0] && x[..7][1] == y[..7][1] && x[..7][2] == y[..7][2];
      assert x[..7][3] == y[..7][3] && x[..7][4] == y[..7][4];
      assert x[..7][5] == y[..7][5] && x[..7][6] == y[..7][6];
      assert x[9..][0] == y[9..][0] && x[9..][1] == y[9..][1];
      assert x[9..][2] == y[9..][2] && x[9..][3] == y[9..][3];
    }
  }

  lemma FieldsAlike(a: Body, b: Body)
    ensures SameBody(a, b) <==> forall i :: 0 <= i < 13 ==> Equiv(Fields(a)[i].value, Fields(b)[i].value)
  {
    NamesSame(a, b);
    SlotsAlike(Fields(a), Fields(b));
    FlatSlots(a, b);
  }

  lemma FieldsWellFormed(b: Body)
    requires ValidBody(b)
    ensures WellFormed(Obj(Fields(b)))
  {
    NamesDistinct(b);
  }

  /** The hashed text of a row tells its body, field by field. */
  lemma CanonicalBody(a: Body, b: Body)
    requires ValidBody(a) && ValidBody(b)
    ensures Canonicalise(a) == Canonicalise(b) <==> SameBody(a, b)
  {
    NamesDistinct(a);
    NamesSame(a, b);
    FieldsWellFormed(a);
    FieldsWellFormed(b);
    CanonicalText(Obj(Fields(a)), Obj(Fields(b)));
    SameNamesEquiv(Fields(a), Fields(b));
    FieldsAlike(a, b);
  }
}
