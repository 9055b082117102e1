/**
 What becomes of the audit log in the database. A row is hashed with its
 snapshots as the program holds them, while the database keeps them as JSON: an
 object field that is undefined is hashed as null and not stored at all. The log
 read back verifies exactly when no snapshot has such a field.
 */
module StoredAudit {
  import opened JsText
  import opened Json
  import opened JsonReader
  import opened Sequences
  import opened AuditRow
  import opened AuditChain
  import opened TamperEvidence

  // A value written as JSON and read back: undefined fields are dropped, everything null-like becomes null.
  function Stored(v: Value): Value {
    match v
    case Other => Null
    case NonFinite => Null
    case Arr(items) => Arr(StoredItems(items))
    case Obj(fields) => Obj(StoredFields(fields))
    case _ => v
  }

  function StoredItems(items: seq<Value>): (r: seq<Value>)
    ensures |r| == |items| && forall i :: 0 <= i < |r| ==> r[i] == Stored(items[i])
  {
    if items == [] then [] else [Stored(items[0])] + StoredItems(items[1..])
  }

  function StoredFields(fields: seq<Field>): seq<Field> {
    if fields == [] then []
    else
      var f := fields[0];
      (if f.value.Other? then [] else [Field(f.key, Stored(f.value))]) + StoredFields(fields[1..])
  }

  // No object in the value, at any depth, has an undefined field.
  ghost predicate Complete(v: Value) {
    match v
    case Arr(items) => forall i :: 0 <= i < |items| ==> Complete(items[i])
    case Obj(fields) => forall i :: 0 <= i < |fields| ==> !fields[i].value.Other? && Complete(fields[i].value)
    case _ => true
  }

  // ---------- one value ----------

  lemma {:induction false} KeysStored(fields: seq<Field>, k: Str)
    requires k in Keys(StoredFields(fields))
    ensures k in Keys(fields)
  {
    hide Stored;
    if fields != [] {
      var f, rest := fields[0], StoredFields(fields[1..]);
      assert fields == [f] + fields[1..];
      ConsKeys(f, fields[1..]);
      if !f.value.Other? { ConsKeys(Field(f.key, Stored(f.value)), rest); }
      if k in Keys(rest) { KeysStored(fields[1..], k); }
    }
  }

  lemma {:induction false} StoredDistinct(fields: seq<Field>)
    requires Distinct(Keys(fields))
    ensures Distinct(Keys(StoredFields(fields)))
  {
    hide Stored;
    if fields != [] {
      var f, rest := fields[0], StoredFields(fields[1..]);
      assert fields == [f] + fields[1..];
      ConsKeys(f, fields[1..]);
      DistinctRest(f.key, Keys(fields[1..]));
      StoredDistinct(fields[1..]);
      ConsKeys(Field(f.key, Stored(f.value)), rest);
      if f.key in Keys(rest) { KeysStored(fields[1..], f.key); }
    }
  }

  lemma DistinctRest(k: Str, ks: seq<Str>)
    requires Distinct([k] + ks)
    ensures Distinct(ks) && k !in ks
  {
    forall i, j | 0 <= i < j < |ks| ensures ks[i] != ks[j] {
      assert ([k] + ks)[i + 1] != ([k] + ks)[j + 1];
    }
    forall i | 0 <= i < |ks| ensures ks[i] != k {
      assert ([k] + ks)[0] != ([k] + ks)[i + 1];
    }
  }

  // An undefined field is gone; any other is stored under its key.
  ghost predicate Arrives(f: Field, stored: seq<Field>) {
    if f.value.Other? then f.key !in Keys(stored)
    else f.key in Keys(stored) && stored[IndexOf(stored, f.key)].value == Stored(f.value)
  }

  lemma ArrivesFirst(f: Field, rest: seq<Field>)
    requires f.key !in Keys(rest)
    ensures Arrives(f, if f.value.Other? then rest else [Field(f.key, Stored(f.value))] + rest)
  {
    hide Stored;
    ConsKeys(Field(f.key, Stored(f.value)), rest);
  }

  lemma ArrivesLater(f: Field, g: Field, rest: seq<Field>)
    requires Arrives(f, rest) && g.key != f.key
    ensures Arrives(f, [g] + rest)
  {
    hide Stored;
    ConsKeys(g, rest);
    if !f.value.Other? { ConsIndex(g, rest, f.key); }
  }

  lemma StoredFirst(fields: seq<Field>)
    requires fields != []
    ensures (var f, rest := fields[0], StoredFields(fields[1..]);
             StoredFields(fields) == if f.value.Other? then rest else [Field(f.key, Stored(f.value))] + rest)
  {
    hide Stored;
  }

  lemma {:induction false} FieldStored(fields: seq<Field>, i: nat)
    requires Distinct(Keys(fields)) && i < |fields|
    ensures Arrives(fields[i], StoredFields(fields))
  {
    hide Stored, Arrives, Distinct, Keys, StoredFields;
    var f, tail := fields[0], fields[1..];
    var rest := StoredFields(tail);
    assert fields == [f] + tail;
    ConsKeys(f, tail);
    DistinctRest(f.key, Keys(tail));
    StoredFirst(fields);
    if i == 0 {
      if f.key in Keys(rest) { KeysStored(tail, f.key); }
      ArrivesFirst(f, rest);
    } else {
      FieldStored(tail, i - 1);
      assert Keys(tail)[i - 1] == fields[i].key;
      ArrivesLater(fields[i], Field(f.key, Stored(f.value)), rest);
    }
  }

  // Under its key the stored object has the field's value.
  lemma KeyStored(fields: seq<Field>, k: Str)
    requires Distinct(Keys(fields)) && k in Keys(fields) && !fields[IndexOf(fields, k)].value.Other?
    ensures (var stored := StoredFields(fields);
             k in Keys(stored) && stored[IndexOf(stored, k)].value == Stored(fields[IndexOf(fields, k)].value))
  {
    hide Stored, Distinct, StoredFields, Keys, IndexOf;
    FieldStored(fields, IndexOf(fields, k));
  }

  lemma CompleteFieldsAlike(fields: seq<Field>)
    requires Distinct(Keys(fields))
    requires forall i :: 0 <= i < |fields| ==> !fields[i].value.Other? && Equiv(fields[i].value, Stored(fields[i].value))
    ensures Equiv(Obj(fields), Obj(StoredFields(fields)))
  {
    hide *;
    var stored := StoredFields(fields);
    forall k | k in Keys(fields)
      ensures k in Keys(stored) && Equiv(fields[IndexOf(fields, k)].value, stored[IndexOf(stored, k)].value)
    {
      KeyStored(fields, k);
    }
    forall k | k in Keys(stored) ensures k in Keys(fields) { KeysStored(fields, k); }
    ObjectsAlike(fields, stored);
  }

  lemma ObjectsAlike(fs: seq<Field>, gs: seq<Field>)
    requires forall k :: k in Keys(fs) <==> k in Keys(gs)
    requires forall k :: k in Keys(fs) ==> Equiv(fs[IndexOf(fs, k)].value, gs[IndexOf(gs, k)].value)
    ensures Equiv(Obj(fs), Obj(gs))
  {
    hide Keys, IndexOf;
  }

  lemma FieldAlike(fs: seq<Field>, gs: seq<Field>, k: Str)
    requires Equiv(Obj(fs), Obj(gs)) && k in Keys(fs)
    ensures k in Keys(gs) && Equiv(fs[IndexOf(fs, k)].value, gs[IndexOf(gs, k)].value)
  {
    hide Keys, IndexOf;
  }

  lemma AlikeFieldComplete(fields: seq<Field>, i: nat)
    requires Distinct(Keys(fields)) && i < |fields|
    requires Equiv(Obj(fields), Obj(StoredFields(fields)))
    ensures !fields[i].value.Other? && Equiv(fields[i].value, Stored(fields[i].value))
  {
    hide Stored, StoredFields, Equiv, Keys, IndexOf, Distinct;
    OnlyIndex(fields, i);
    FieldStored(fields, i);
    FieldAlike(fields, StoredFields(fields), fields[i].key);
  }

  lemma FieldsAlikeStored(fields: seq<Field>)
    requires Distinct(Keys(fields))
    requires forall i :: 0 <= i < |fields| ==>
      (Equiv(fields[i].value, Stored(fields[i].value)) <==> Complete(fields[i].value))
    ensures Equiv(Obj(fields), Obj(StoredFields(fields))) <==> Complete(Obj(fields))
  {
    hide Stored, StoredFields, Equiv, Distinct;
    if Complete(Obj(fields)) {
      CompleteFieldsAlike(fields);
    } else if Equiv(Obj(fields), Obj(StoredFields(fields))) {
      forall i | 0 <= i < |fields| ensures !fields[i].value.Other? && Complete(fields[i].value) {
        AlikeFieldComplete(fields, i);
      }
    }
  }

  lemma {:induction false} StoredWellFormed(v: Value)
    requires WellFormed(v)
    ensures WellFormed(Stored(v))
    decreases v, 0
  {
    match v
    case Arr(items) =>
      forall i | 0 <= i < |items| ensures WellFormed(Stored(items[i])) { StoredWellFormed(items[i]); }
    case Obj(fields) =>
      StoredDistinct(fields);
      StoredFieldsWellFormed(fields);
    case _ =>
  }

  lemma {:induction false} StoredFieldsWellFormed(fields: seq<Field>)
    requires forall i :: 0 <= i < |fields| ==> WellFormed(fields[i].value)
    ensures forall i :: 0 <= i < |StoredFields(fields)| ==> WellFormed(StoredFields(fields)[i].value)
    decreases fields, 0
  {
    hide WellFormed, Stored;
    if fields != [] {
      StoredWellFormed(fields[0].value);
      StoredFieldsWellFormed(fields[1..]);
    }
  }

  lemma {:induction false} EquivStored(v: Value)
    requires WellFormed(v)
    ensures Equiv(v, Stored(v)) <==> Complete(v)
  {
    match v
    case Arr(items) =>
      forall i | 0 <= i < |items| ensures Equiv(items[i], Stored(items[i])) <==> Complete(items[i]) {
        EquivStored(items[i]);
      }
    case Obj(fields) =>
      forall i | 0 <= i < |fields| ensures Equiv(fields[i].value, Stored(fields[i].value)) <==> Complete(fields[i].value) {
        EquivStored(fields[i].value);
      }
      FieldsAlikeStored(fields);
    case _ =>
  }

  /** Storing a snapshot keeps its hashed text if and only if none of its objects has an undefined field. */
  lemma SnapshotSurvives(v: Value)
    requires WellFormed(v)
    ensures Stringify(Stored(v)) == Stringify(v) <==> Complete(v)
  {
    StoredWellFormed(v);
    EquivStored(v);
    CanonicalText(v, Stored(v));
  }

  /** An object with an undefined field is such a snapshot, whatever the field is called. */
  lemma UndefinedFieldLost(k: Str)
    ensures (var v := Obj([Field(k, Other)]); WellFormed(v) && Stringify(Stored(v)) != Stringify(v))
  {
    var v := Obj([Field(k, Other)]);
    assert v.fields[0].value.Other?;
    SnapshotSurvives(v);
  }

  // ---------- the log ----------

  function StoredBody(b: Body): Body {
    b.(before := Stored(b.before), after := Stored(b.after))
  }

  // The columns beside the snapshots are texts and come back as they are.
  function StoredRow(r: Row): Row {
    r.(body := StoredBody(r.body))
  }

  function StoredRows(rows: seq<Row>): (s: seq<Row>)
    ensures |s| == |rows| && forall i :: 0 <= i < |s| ==> s[i] == StoredRow(rows[i])
  {
    seq(|rows|, i requires 0 <= i < |rows| => StoredRow(rows[i]))
  }

  ghost predicate CompleteRow(r: Row) {
    r.Sentinel() || (Complete(r.body.before) && Complete(r.body.after))
  }

  ghost predicate CompleteRows(rows: seq<Row>) { forall r :: r in rows ==> CompleteRow(r) }

  // The texts hashed when the rows were written, and when they are read back.
  function StorageTexts(rows: seq<Row>): set<Str> {
    (set r <- rows :: RowText(r.prevHash, r.body)) + (set r <- rows :: RowText(r.prevHash, StoredBody(r.body)))
  }

  lemma BodyStored(b: Body)
    requires ValidBody(b)
    ensures Canonicalise(StoredBody(b)) == Canonicalise(b) <==> Complete(b.before) && Complete(b.after)
  {
    StoredWellFormed(b.before);
    StoredWellFormed(b.after);
    EquivStored(b.before);
    EquivStored(b.after);
    CanonicalBody(b, StoredBody(b));
  }

  lemma {:induction false} HeadStored(h: Sha256, rows: seq<Row>, tenant: Str)
    ensures Head(h, StoredRows(rows), tenant) == Head(h, rows, tenant)
  {
    if rows == [] {
      assert StoredRows(rows) == rows;
    } else {
      hide Head, Stored;
      var before, r := rows[..|rows| - 1], rows[|rows| - 1];
      HeadStored(h, before, tenant);
      assert rows == before + [r];
      StoredSnoc(before, r);
      HeadSnoc(h, before, r, tenant);
      HeadSnoc(h, StoredRows(before), StoredRow(r), tenant);
    }
  }

  lemma SameTextTail(p: Str, x: Str, y: Str)
    requires p + x == p + y
    ensures x == y
  {
    assert x == (p + x)[|p|..] && y == (p + y)[|p|..];
  }

  lemma CheckStored(h: Sha256, before: seq<Row>, r: Row)
    requires ValidBody(r.body) && Check(h, before, r).None?
    ensures (Check(h, StoredRows(before), StoredRow(r)).None? <==> CompleteRow(r)) || Collision(h, StorageTexts(before + [r]))
  {
    hide Head, Stored, Canonicalise, Complete;
    HeadStored(h, before, r.body.tenantId);
    if !r.Sentinel() {
      var x, y := RowText(r.prevHash, r.body), RowText(r.prevHash, StoredBody(r.body));
      BodyStored(r.body);
      assert r in before + [r];
      if x == y {
        SameTextTail(r.prevHash, Canonicalise(r.body), Canonicalise(StoredBody(r.body)));
      } else if h(x) == h(y) {
        Collide(h, StorageTexts(before + [r]), x, y);
      }
    }
  }

  lemma {:induction false} AcceptedStored(h: Sha256, rows: seq<Row>)
    requires ValidRows(rows) && Accepted(h, rows)
    ensures (Accepted(h, StoredRows(rows)) <==> CompleteRows(rows)) || Collision(h, StorageTexts(rows))
  {
    hide *;
    if rows == [] {
      NothingStored(rows);
    } else {
      var before, r := rows[..|rows| - 1], rows[|rows| - 1];
      assert rows == before + [r];
      StoredSnoc(before, r);
      ValidSplit(before, r);
      CompleteSplit(before, r);
      AcceptedSnoc(h, before, r);
      AcceptedSnoc(h, StoredRows(before), StoredRow(r));
      CheckStored(h, before, r);
      AcceptedStored(h, before);
      if Collision(h, StorageTexts(before)) { CollisionStays(h, before, r); }
    }
  }

  lemma StoredSnoc(before: seq<Row>, r: Row)
    ensures StoredRows(before + [r]) == StoredRows(before) + [StoredRow(r)]
  {
    hide StoredRow;
  }

  lemma ValidSplit(before: seq<Row>, r: Row)
    requires ValidRows(before + [r])
    ensures ValidRows(before) && ValidBody(r.body)
  {
    hide ValidBody;
    assert r in before + [r] && forall s <- before :: s in before + [r];
  }

  lemma NothingStored(rows: seq<Row>)
    requires rows == []
    ensures StoredRows(rows) == rows && CompleteRows(rows)
  {
  }

  lemma CompleteSplit(before: seq<Row>, r: Row)
    ensures CompleteRows(before + [r]) <==> CompleteRows(before) && CompleteRow(r)
  {
    hide CompleteRow;
    assert r in before + [r] && forall s <- before :: s in before + [r];
  }

  lemma CollisionStays(h: Sha256, before: seq<Row>, r: Row)
    requires Collision(h, StorageTexts(before))
    ensures Collision(h, StorageTexts(before + [r]))
  {
    hide RowText, StoredBody;
    assert StorageTexts(before) <= StorageTexts(before + [r]);
  }

  /**
   A log that verified when it was written verifies when it is read back from the
   database if and only if no snapshot has an undefined field, or its hashed texts
   hold a collision.
   */
  lemma StoredLogVerifies(h: Sha256, rows: seq<Row>)
    requires ValidRows(rows) && Verify(h, rows).Intact?
    ensures (Verify(h, StoredRows(rows)).Intact? <==> CompleteRows(rows)) || Collision(h, StorageTexts(rows))
  {
    hide Verify, Stored, CompleteRows, StorageTexts;
    VerdictSound(h, rows);
    VerdictSound(h, StoredRows(rows));
    AcceptedStored(h, rows);
  }
}
