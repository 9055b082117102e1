/**
 Erasing a data subject from both stores: the in-memory owner list, and the
 per-tenant owner rows of the database, whose audit log gains one entry for each
 row destroyed.

 The database may fail at any tenant; each tenant's update and audit entry commit
 together or not at all, and the tenants before it stay erased.
 */
module Erasure {
  import opened Options
  import opened JsText
  import opened Json
  import opened Sequences

  type OwnerId = Str
  type Code = Str
  type TenantId = Str

  datatype Record = Record(
    name: Str,
    email: Option<Str>,
    phone: Option<Str>,
    postalAddress: Str,
    previousOwners: seq<Str>,
    kept: Str)  // linkage, tenure and business numbers

  datatype Owner = Owner(ownerId: OwnerId, record: Record)

  function Tombstone(): Str { Ascii("[erased]") }

  function Shred(r: Record): Record {
    Record(Tombstone(), None, None, Tombstone(), [], r.kept)
  }

  // What is populated in a record, and nothing of its values.
  datatype Projection = Projection(nameErased: bool, emailErased: bool, phoneErased: bool, addressErased: bool)

  function Project(r: Record): Projection {
    Projection(r.name == Tombstone(), r.email.None?, r.phone.None?, r.postalAddress == Tombstone())
  }

  const ALL_ERASED := Projection(true, true, true, true)

  // The database's own test; it does not look at the previous owners.
  predicate Tombstoned(r: Record) {
    Project(r) == ALL_ERASED
  }

  type Key = (TenantId, OwnerId)

  type Rows = map<Key, Record>

  datatype Entry = Entry(tenantId: TenantId, actorId: Str, ownerId: OwnerId, before: Projection, after: Projection)

  datatype Session = Session(userId: Str, tenantId: Code, roles: seq<Str>)

  datatype Refusal = Forbidden | NotFound | Conflict | InternalError

  datatype Outcome =
    | Erased(changed: bool, tenantsAffected: seq<Code>, shared: bool)
    | Refused(why: Refusal)

  // ---------- authorisation ----------

  function DistinctCodes(portfolio: seq<Option<Code>>): (cs: seq<Code>)
    ensures Distinct(cs)
    ensures forall c :: c in cs <==> Some(c) in portfolio
  {
    if portfolio == [] then []
    else
      var n := |portfolio| - 1;
      var before := DistinctCodes(portfolio[..n]);
      assert portfolio == portfolio[..n] + [portfolio[n]];
      if portfolio[n].Some? && portfolio[n].value !in before then before + [portfolio[n].value] else before
  }

  // The councils the owner's properties lie in, sorted.
  function Footprint(portfolio: seq<Option<Code>>): seq<Code> {
    SortKeys(DistinctCodes(portfolio))
  }

  /** The footprint lists each council once, in ascending order by the first differing unit. */
  lemma FootprintAscends(portfolio: seq<Option<Code>>)
    ensures (var f := Footprint(portfolio);
             && (forall c :: c in f <==> Some(c) in portfolio)
             && (forall i, j :: 0 <= i < j < |f| ==> Precedes(f[i], f[j])))
  {
    hide SortKeys, Precedes, DistinctCodes;
    var ks := DistinctCodes(portfolio);
    var f := SortKeys(ks);
    assert forall c :: c in f <==> c in multiset(f);
    assert forall c :: c in ks <==> c in multiset(ks);
    SortKeysSorted(ks);
    StillDistinct(ks, f);
    forall i, j | 0 <= i < j < |f| ensures Precedes(f[i], f[j]) {
      LessTotal(f[i], f[j]);
      LessIsFirstDifference(f[i], f[j]);
    }
  }

  predicate IsPlatformAdmin(s: Session) { Ascii("platform_admin") in s.roles }

  predicate HoldsUserManagement(s: Session) { IsPlatformAdmin(s) || Ascii("council_admin") in s.roles }

  function Authorise(s: Session, footprint: seq<Code>): Option<Refusal> {
    if !HoldsUserManagement(s) then Some(Forbidden)
    else if IsPlatformAdmin(s) then None
    else if |footprint| == 0 then Some(NotFound)
    else if |footprint| > 1 then Some(Forbidden)
    else if footprint[0] != s.tenantId then Some(Forbidden)
    else None
  }

  /**
   Only a user manager is authorised: a platform administrator always, a council
   administrator for an owner in its own council alone. An owner on no visible
   property is not found; anything else is forbidden.
   */
  lemma AuthorisedExactly(s: Session, footprint: seq<Code>)
    ensures (var platform, council := Ascii("platform_admin") in s.roles, Ascii("council_admin") in s.roles;
             && (Authorise(s, footprint).None? <==> platform || (council && footprint == [s.tenantId]))
             && (Authorise(s, footprint) == Some(NotFound) <==> !platform && council && footprint == [])
             && (Authorise(s, footprint).Some? ==> Authorise(s, footprint).value in {Forbidden, NotFound}))
  {
  }

  function Own(footprint: seq<Code>, tenant: Code): seq<Code> {
    if footprint == [] then []
    else (if footprint[0] == tenant then [tenant] else []) + Own(footprint[1..], tenant)
  }

  function Targets(s: Session, footprint: seq<Code>): seq<Code> {
    if IsPlatformAdmin(s) then footprint else Own(footprint, s.tenantId)
  }

  lemma {:induction false} OwnExactly(footprint: seq<Code>, tenant: Code)
    ensures forall c :: c in Own(footprint, tenant) <==> c in footprint && c == tenant
  {
    if footprint != [] {
      OwnExactly(footprint[1..], tenant);
      assert footprint == [footprint[0]] + footprint[1..];
    }
  }

  /** A platform administrator's erasure targets the whole footprint, anyone else's at most the own council of it. */
  lemma TargetsExactly(s: Session, footprint: seq<Code>)
    ensures Ascii("platform_admin") in s.roles ==> Targets(s, footprint) == footprint
    ensures Ascii("platform_admin") !in s.roles ==>
              forall c :: c in Targets(s, footprint) <==> c in footprint && c == s.tenantId
  {
    OwnExactly(footprint, s.tenantId);
  }

  // ---------- the in-memory store ----------

  function FindOwner(owners: seq<Owner>, id: OwnerId): (r: Option<nat>)
    ensures r.Some? ==> r.value < |owners| && owners[r.value].ownerId == id
  {
    if owners == [] then None
    else if owners[0].ownerId == id then Some(0)
    else match FindOwner(owners[1..], id) { case None => None case Some(i) => Some(i + 1) }
  }

  function OwnersAfter(owners: seq<Owner>, id: OwnerId): seq<Owner> {
    match FindOwner(owners, id)
    case None => owners
    case Some(i) => owners[i := Owner(id, Shred(owners[i].record))]
  }

  // Record i is the first of this owner.
  predicate FirstOf(owners: seq<Owner>, i: nat, id: OwnerId) {
    i < |owners| && owners[i].ownerId == id && forall j :: 0 <= j < i ==> owners[j].ownerId != id
  }

  // Name and address overwritten, contact and previous owners gone, the rest kept.
  predicate Shredded(before: Record, after: Record) {
    && after.name == Ascii("[erased]") && after.postalAddress == Ascii("[erased]")
    && after.email.None? && after.phone.None? && after.previousOwners == [] && after.kept == before.kept
  }

  // The first record of the owner is shredded, and every other record is as it was.
  ghost predicate OneErased(before: seq<Owner>, after: seq<Owner>, id: OwnerId) {
    && |after| == |before|
    && forall i :: 0 <= i < |before| ==>
         if FirstOf(before, i, id) then after[i].ownerId == id && Shredded(before[i].record, after[i].record)
         else after[i] == before[i]
  }

  lemma {:induction false} FoundFirst(owners: seq<Owner>, id: OwnerId)
    ensures match FindOwner(owners, id)
            case Some(i) => FirstOf(owners, i, id)
            case None => forall o <- owners :: o.ownerId != id
  {
    if owners != [] && owners[0].ownerId != id {
      FoundFirst(owners[1..], id);
      assert owners == [owners[0]] + owners[1..];
    }
  }

  lemma ErasedIs(owners: seq<Owner>, id: OwnerId)
    ensures OneErased(owners, OwnersAfter(owners, id), id)
  {
    FoundFirst(owners, id);
    forall i | 0 <= i < |owners|
      ensures FirstOf(owners, i, id) <==> FindOwner(owners, id) == Some(i)
    {
      if FirstOf(owners, i, id) { assert owners[i] in owners; }
    }
  }

  /** Erasing in memory changes the list exactly if the first record of the owner is there and not shredded yet. */
  lemma ChangesExactly(owners: seq<Owner>, id: OwnerId)
    ensures OwnersAfter(owners, id) != owners <==>
            exists i: nat :: FirstOf(owners, i, id) && !Shredded(owners[i].record, owners[i].record)
  {
    FoundFirst(owners, id);
    if i: nat :| FirstOf(owners, i, id) && !Shredded(owners[i].record, owners[i].record) {
      assert owners[i] in owners;
      assert OwnersAfter(owners, id)[i] != owners[i];
    }
    if OwnersAfter(owners, id) != owners {
      var i := FindOwner(owners, id).value;
      assert FirstOf(owners, i, id);
      ShreddedStays(owners, i);
    }
  }

  lemma ShreddedStays(owners: seq<Owner>, i: nat)
    requires i < |owners|
    ensures (var o := owners[i];
             Shredded(o.record, o.record) ==> owners[i := Owner(o.ownerId, Shred(o.record))] == owners)
  {
  }

  // ---------- the database ----------

  datatype Db = Db(rows: Rows, log: seq<Entry>, affected: seq<Code>)

  // What a tenant's step finds to erase: its row's key, when the row is there and not a tombstone.
  function Pending(tenants: map<Code, TenantId>, rows: Rows, code: Code, id: OwnerId): Option<Key> {
    if code in tenants && (tenants[code], id) in rows && !Tombstoned(rows[(tenants[code], id)])
    then Some((tenants[code], id)) else None
  }

  function EraseRow(db: Db, tenants: map<Code, TenantId>, code: Code, id: OwnerId, actor: Str): Db {
    match Pending(tenants, db.rows, code, id)
    case None => db
    case Some(key) =>
      var row := db.rows[key];
      Db(db.rows[key := Shred(row)],
         db.log + [Entry(key.0, actor, id, Project(row), Project(Shred(row)))],
         db.affected + [code])
  }

  function EraseRows(db: Db, tenants: map<Code, TenantId>, codes: seq<Code>, id: OwnerId, actor: Str): Db {
    if codes == [] then db
    else EraseRow(EraseRows(db, tenants, codes[..|codes| - 1], id, actor), tenants, codes[|codes| - 1], id, actor)
  }

  // The database fails at council k and at none before it.
  predicate FirstFailure(codes: seq<Code>, k: nat, failsAt: Code -> bool) {
    k < |codes| && failsAt(codes[k]) && forall j :: 0 <= j < k ==> !failsAt(codes[j])
  }

  class ErasureService {
    const dbWired: bool
    const tenants: map<Code, TenantId>
    var owners: seq<Owner>
    var memoryLog: seq<OwnerId>
    var rows: Rows
    var dbLog: seq<Entry>

    constructor (dbWired: bool, tenants: map<Code, TenantId>, owners: seq<Owner>, rows: Rows)
      ensures this.dbWired == dbWired && this.tenants == tenants && this.owners == owners && this.rows == rows
      ensures memoryLog == [] && dbLog == []
    {
      this.dbWired, this.tenants, this.owners, this.rows := dbWired, tenants, owners, rows;
      memoryLog, dbLog := [], [];
    }

    // Shreds the first record of the owner, and records it only when that changed something.
    method EraseOwnerInproc(id: OwnerId) returns (changed: bool)
      modifies this`owners, this`memoryLog
      ensures owners == OwnersAfter(old(owners), id) && OneErased(old(owners), owners, id)
      ensures changed <==> owners != old(owners)
      ensures changed <==> exists i: nat :: FirstOf(old(owners), i, id)
                                       && !Shredded(old(owners)[i].record, old(owners)[i].record)
      ensures memoryLog == if changed then old(memoryLog) + [id] else old(memoryLog)
    {
      ErasedIs(owners, id);
      ChangesExactly(owners, id);
      var idx := FindOwner(owners, id);
      if idx.None? { return false; }
      var before := owners[idx.value].record;
      var after := Shred(before);
      assert owners[idx.value] == Owner(id, before);
      if before == after {
        assert owners[idx.value := Owner(id, after)] == owners;
        return false;
      }
      assert OwnersAfter(owners, id)[idx.value] != owners[idx.value];
      owners := owners[idx.value := Owner(id, after)];
      memoryLog := memoryLog + [id];
      return true;
    }

    // Erases tenant by tenant; None when the database fails at one of them.
    method EraseOwnerRowsInDb(id: OwnerId, codes: seq<Code>, actor: Str, failsAt: Code -> bool)
      returns (affected: Option<seq<Code>>, ghost done: nat)
      modifies this`rows, this`dbLog
      ensures done <= |codes| && (affected.Some? <==> forall c <- codes :: !failsAt(c))
      ensures affected.Some? ==> done == |codes|
      ensures affected.None? ==> FirstFailure(codes, done, failsAt)
      ensures (var db := EraseRows(Db(old(rows), old(dbLog), []), tenants, codes[..done], id, actor);
               && rows == db.rows && dbLog == db.log
               && (affected.Some? ==> affected.value == db.affected))
    {
      var reached: seq<Code> := [];
      for i := 0 to |codes|
        invariant forall k :: 0 <= k < i ==> !failsAt(codes[k])
        invariant Db(rows, dbLog, reached) ==
                  EraseRows(Db(old(rows), old(dbLog), []), tenants, codes[..i], id, actor)
      {
        var code := codes[i];
        if failsAt(code) { return None, i; }
        assert codes[..i + 1][..i] == codes[..i];
        if code !in tenants { continue; }
        var key := (tenants[code], id);
        if key !in rows || Tombstoned(rows[key]) { continue; }
        var row := rows[key];
        rows := rows[key := Shred(row)];
        dbLog := dbLog + [Entry(key.0, actor, id, Project(row), Project(rows[key]))];
        reached := reached + [code];
      }
      assert codes[..|codes|] == codes;
      return Some(reached), |codes|;
    }

    method EraseOwnerData(id: OwnerId, session: Session, portfolio: seq<Option<Code>>, legalHold: bool,
                          failsAt: Code -> bool)
      returns (outcome: Outcome, ghost done: nat)
      modifies this`owners, this`memoryLog, this`rows, this`dbLog
      ensures done <= |Targets(session, Footprint(portfolio))|
      ensures (var footprint := Footprint(portfolio);
               var targets := Targets(session, footprint);
               var denied := Authorise(session, footprint);
               if denied.Some? || legalHold then
                 && outcome == Refused(if denied.Some? then denied.value else Conflict)
                 && owners == old(owners) && memoryLog == old(memoryLog) && rows == old(rows) && dbLog == old(dbLog)
               else
                 var db := EraseRows(Db(old(rows), old(dbLog), []), tenants, targets[..done], id, session.userId);
                 && owners == OwnersAfter(old(owners), id) && OneErased(old(owners), owners, id)
                 && memoryLog == (if owners != old(owners) then old(memoryLog) + [id] else old(memoryLog))
                 && rows == db.rows && dbLog == db.log
                 && (outcome == Refused(InternalError) <==> dbWired && exists c <- targets :: failsAt(c))
                 && (outcome == Refused(InternalError) ==> FirstFailure(targets, done, failsAt))
                 && (outcome != Refused(InternalError) ==>
                      && done == (if dbWired then |targets| else 0)
                      && outcome == Erased(owners != old(owners) || db.affected != [],
                                           if dbWired then db.affected else targets, |footprint| > 1)))
    {
      done := 0;
      var footprint := Footprint(portfolio);
      var shared := |footprint| > 1;
      var denied := Authorise(session, footprint);
      if denied.Some? { return Refused(denied.value), 0; }
      if legalHold { return Refused(Conflict), 0; }
      var targets := Targets(session, footprint);
      var anyChanged := EraseOwnerInproc(id);
      assert targets[..0] == [];
      if dbWired && |targets| > 0 {
        var affected;
        affected, done := EraseOwnerRowsInDb(id, targets, session.userId, failsAt);
        if affected.None? { return Refused(InternalError), done; }
        assert targets[..|targets|] == targets;
        return Erased(anyChanged || |affected.value| > 0, affected.value, shared), done;
      }
      return Erased(anyChanged, if dbWired then [] else targets, shared), 0;
    }
  }

  // ---------- what an erasure does to the rows ----------

  lemma ShredTombstones(r: Record)
    ensures Tombstoned(Shred(r))
  {
  }

  predicate Reached(tenants: map<Code, TenantId>, codes: seq<Code>, id: OwnerId, key: Key) {
    key.1 == id && exists c <- codes :: c in tenants && tenants[c] == key.0
  }

  /**
   Row by row: the subject's rows in the tenants named become tombstones and
   every other row is as it was.
   */
  lemma RowsErasedExactly(db: Db, tenants: map<Code, TenantId>, codes: seq<Code>, id: OwnerId, actor: Str)
    ensures (var after := EraseRows(db, tenants, codes, id, actor).rows;
             && after.Keys == db.rows.Keys
             && (forall key <- db.rows ::
                  if Reached(tenants, codes, id, key) && !ContactErased(db.rows[key]) then Shredded(db.rows[key], after[key])
                  else after[key] == db.rows[key]))
  {
    RowsErased(db, tenants, codes, id, actor);
    forall key | key in db.rows
      ensures Tombstoned(db.rows[key]) <==> ContactErased(db.rows[key])
      ensures Shredded(db.rows[key], Shred(db.rows[key]))
    {
      TombstonedIs(db.rows[key]);
    }
  }

  // Name and address overwritten, and no way to reach the person.
  predicate ContactErased(r: Record) {
    r.name == Ascii("[erased]") && r.postalAddress == Ascii("[erased]") && r.email.None? && r.phone.None?
  }

  lemma TombstonedIs(r: Record)
    ensures Tombstoned(r) <==> ContactErased(r)
    ensures Shredded(r, Shred(r))
  {
  }

  lemma {:induction false} RowsErased(db: Db, tenants: map<Code, TenantId>, codes: seq<Code>, id: OwnerId, actor: Str)
    ensures (var after := EraseRows(db, tenants, codes, id, actor).rows;
             && after.Keys == db.rows.Keys
             && (forall key <- db.rows :: after[key] ==
                  if Reached(tenants, codes, id, key) && !Tombstoned(db.rows[key]) then Shred(db.rows[key])
                  else db.rows[key]))
  {
    if codes != [] {
      hide Shred, Tombstoned, Project;
      var n := |codes| - 1;
      RowsErased(db, tenants, codes[..n], id, actor);
      assert codes == codes[..n] + [codes[n]];
      forall key | key in db.rows ensures Tombstoned(Shred(db.rows[key])) {
        ShredTombstones(db.rows[key]);
      }
    }
  }

  /** After a success every row of the subject in the tenants named is a tombstone. */
  lemma ReachedAreTombstones(db: Db, tenants: map<Code, TenantId>, codes: seq<Code>, id: OwnerId, actor: Str, key: Key)
    requires key in db.rows && Reached(tenants, codes, id, key)
    ensures key in EraseRows(db, tenants, codes, id, actor).rows
    ensures (var after := EraseRows(db, tenants, codes, id, actor).rows[key];
             && ContactErased(after) && after.kept == db.rows[key].kept
             && (after.previousOwners == [] <==> !ContactErased(db.rows[key]) || db.rows[key].previousOwners == []))
  {
    RowsErasedExactly(db, tenants, codes, id, actor);
  }

  // ---------- one audit entry per changed row ----------

  function Targeted(log: seq<Entry>): (keys: seq<Key>)
    ensures |keys| == |log| && forall i :: 0 <= i < |keys| ==> keys[i] == (log[i].tenantId, log[i].ownerId)
  {
    seq(|log|, i requires 0 <= i < |log| => (log[i].tenantId, log[i].ownerId))
  }

  // Field by field, whether it is erased.
  predicate Describes(p: Projection, r: Record) {
    && (p.nameErased <==> r.name == Ascii("[erased]")) && (p.emailErased <==> r.email.None?)
    && (p.phoneErased <==> r.phone.None?) && (p.addressErased <==> r.postalAddress == Ascii("[erased]"))
  }

  lemma ProjectDescribes(r: Record)
    ensures Describes(Project(r), r)
  {
  }

  // What the entries from `db` to `after` say.
  ghost predicate Accounts(db: Db, after: Db, actor: Str) {
    && db.log <= after.log && after.rows.Keys == db.rows.Keys
    && var added := after.log[|db.log|..];
       && Distinct(Targeted(added))
       && (forall key :: key in Targeted(added) <==> key in db.rows && after.rows[key] != db.rows[key])
       && (forall e <- added :: (e.tenantId, e.ownerId) in db.rows
            && Describes(e.before, db.rows[(e.tenantId, e.ownerId)])
            && Describes(e.after, after.rows[(e.tenantId, e.ownerId)])
            && e.after == Projection(true, true, true, true) && e.actorId == actor)
  }

  lemma ShredErasesAll(row: Record)
    ensures Project(Shred(row)) == ALL_ERASED
  {
  }

  lemma EntryAdded(db: Db, before: Db, tenants: map<Code, TenantId>, code: Code, id: OwnerId, actor: Str)
    requires Accounts(db, before, actor)
    requires forall key <- db.rows :: before.rows[key] != db.rows[key] ==> Tombstoned(before.rows[key])
    ensures Accounts(db, EraseRow(before, tenants, code, id, actor), actor)
  {
    hide Project, Shred, Tombstoned, Describes, Distinct, Targeted;
    var after := EraseRow(before, tenants, code, id, actor);
    match Pending(tenants, before.rows, code, id)
    case None =>
    case Some(key) =>
      ShredTombstones(before.rows[key]);
      ShredErasesAll(before.rows[key]);
      ProjectDescribes(before.rows[key]);
      ProjectDescribes(Shred(before.rows[key]));
      var e := after.log[|before.log|];
      var added := before.log[|db.log|..];
      assert after.log[|db.log|..] == added + [e];
      TargetedSnoc(added, e);
      assert key !in Targeted(added);
  }

  lemma TargetedSnoc(log: seq<Entry>, e: Entry)
    ensures Targeted(log + [e]) == Targeted(log) + [(e.tenantId, e.ownerId)]
    ensures Distinct(Targeted(log)) && (e.tenantId, e.ownerId) !in Targeted(log) ==> Distinct(Targeted(log + [e]))
  {
  }

  /**
   The entries an erasure appends are for exactly the rows it changed, once each,
   and show the row's state before and after.
   */
  lemma {:induction false} OneEntryPerChangedRow(db: Db, tenants: map<Code, TenantId>, codes: seq<Code>, id: OwnerId, actor: Str)
    ensures Accounts(db, EraseRows(db, tenants, codes, id, actor), actor)
  {
    if codes == [] {
      assert db.log[|db.log|..] == [];
    } else {
      var n := |codes| - 1;
      OneEntryPerChangedRow(db, tenants, codes[..n], id, actor);
      RowsErased(db, tenants, codes[..n], id, actor);
      var before := EraseRows(db, tenants, codes[..n], id, actor);
      EntryAdded(db, before, tenants, codes[n], id, actor);
    }
  }

  // ---------- repeating ----------

  lemma {:induction false} SettledRowsStay(db: Db, tenants: map<Code, TenantId>, codes: seq<Code>, id: OwnerId, actor: Str)
    requires forall c <- codes :: Pending(tenants, db.rows, c, id).None?
    ensures EraseRows(db, tenants, codes, id, actor) == db
  {
    if codes != [] {
      SettledRowsStay(db, tenants, codes[..|codes| - 1], id, actor);
    }
  }

  lemma {:induction false} EraseRowsJoin(db: Db, tenants: map<Code, TenantId>, a: seq<Code>, b: seq<Code>, id: OwnerId, actor: Str)
    ensures EraseRows(db, tenants, a + b, id, actor) ==
            EraseRows(EraseRows(db, tenants, a, id, actor), tenants, b, id, actor)
  {
    if b == [] {
      assert a + b == a;
    } else {
      EraseRowsJoin(db, tenants, a, b[..|b| - 1], id, actor);
      assert (a + b)[..|a + b| - 1] == a + b[..|b| - 1];
    }
  }

  lemma {:induction false} AffectedStarts(db: Db, tenants: map<Code, TenantId>, codes: seq<Code>, id: OwnerId, actor: Str)
    ensures (var clean := EraseRows(db.(affected := []), tenants, codes, id, actor);
             EraseRows(db, tenants, codes, id, actor) == Db(clean.rows, clean.log, db.affected + clean.affected))
  {
    if codes == [] {
      assert db.affected + [] == db.affected;
    } else {
      AffectedStarts(db, tenants, codes[..|codes| - 1], id, actor);
    }
  }

  /**
   However far a first run got before the database failed, repeating the request
   ends with the rows and the log of one run that did not fail, and the two runs
   report its tenants between them; a run that succeeded is left alone by the next.
   */
  lemma RetryCompletes(rows: Rows, log: seq<Entry>, tenants: map<Code, TenantId>, codes: seq<Code>, done: nat,
                       id: OwnerId, actor: Str)
    requires done <= |codes|
    ensures (var first := EraseRows(Db(rows, log, []), tenants, codes[..done], id, actor);
             var again := EraseRows(Db(first.rows, first.log, []), tenants, codes, id, actor);
             var whole := EraseRows(Db(rows, log, []), tenants, codes, id, actor);
             && again.rows == whole.rows && again.log == whole.log
             && first.affected + again.affected == whole.affected
             && (done == |codes| ==> again.rows == first.rows && again.log == first.log && again.affected == []))
  {
    var start := Db(rows, log, []);
    var did := codes[..done];
    var first := EraseRows(start, tenants, did, id, actor);
    forall c <- did ensures Pending(tenants, first.rows, c, id).None? {
      if c in tenants && (tenants[c], id) in rows {
        ReachedAreTombstones(start, tenants, did, id, actor, (tenants[c], id));
        TombstonedIs(first.rows[(tenants[c], id)]);
      }
      RowsErased(start, tenants, did, id, actor);
    }
    SettledRowsStay(Db(first.rows, first.log, []), tenants, did, id, actor);
    assert codes == did + codes[done..];
    EraseRowsJoin(start, tenants, did, codes[done..], id, actor);
    EraseRowsJoin(Db(first.rows, first.log, []), tenants, did, codes[done..], id, actor);
    AffectedStarts(first, tenants, codes[done..], id, actor);
  }

  /** Erasing an owner in memory again changes nothing. */
  lemma {:induction false} OwnersErasedOnce(owners: seq<Owner>, id: OwnerId)
    ensures OwnersAfter(OwnersAfter(owners, id), id) == OwnersAfter(owners, id)
  {
    FindUnmoved(owners, id);
  }

  lemma {:induction false} FindUnmoved(owners: seq<Owner>, id: OwnerId)
    ensures FindOwner(OwnersAfter(owners, id), id) == FindOwner(owners, id)
  {
    if owners != [] && owners[0].ownerId != id {
      FindUnmoved(owners[1..], id);
      if FindOwner(owners, id).Some? {
        assert OwnersAfter(owners, id)[1..] == OwnersAfter(owners[1..], id);
      }
    }
  }

  // ---------- tenants ----------

  /** A council administrator's erasure touches no row outside its own tenant. */
  lemma CouncilAdminStaysHome(db: Db, tenants: map<Code, TenantId>, s: Session, portfolio: seq<Option<Code>>,
                              id: OwnerId, actor: Str, key: Key)
    requires !IsPlatformAdmin(s) && Authorise(s, Footprint(portfolio)).None?
    requires key in db.rows
    requires s.tenantId in tenants ==> key.0 != tenants[s.tenantId]
    ensures Targets(s, Footprint(portfolio)) == Footprint(portfolio) == [s.tenantId]
    ensures key in EraseRows(db, tenants, Targets(s, Footprint(portfolio)), id, actor).rows
    ensures EraseRows(db, tenants, Targets(s, Footprint(portfolio)), id, actor).rows[key] == db.rows[key]
  {
    var footprint := Footprint(portfolio);
    assert footprint == [s.tenantId];
    assert Own(footprint[1..], s.tenantId) == [];
    RowsErased(db, tenants, footprint, id, actor);
  }

  lemma {:induction false} NoCodes(portfolio: seq<Option<Code>>)
    requires forall c <- portfolio :: c.None?
    ensures DistinctCodes(portfolio) == []
  {
    if portfolio != [] { NoCodes(portfolio[..|portfolio| - 1]); }
  }

  /**
   A platform administrator may erase an owner on no visible property, but then
   no tenant is targeted and the owner's database rows all stay.
   */
  lemma UnlistedOwnerKeepsRows(db: Db, tenants: map<Code, TenantId>, s: Session, portfolio: seq<Option<Code>>,
                               id: OwnerId, actor: Str)
    requires IsPlatformAdmin(s) && forall c <- portfolio :: c.None?
    ensures Authorise(s, Footprint(portfolio)).None?
    ensures EraseRows(db, tenants, Targets(s, Footprint(portfolio)), id, actor) == db
  {
    NoCodes(portfolio);
  }
}
