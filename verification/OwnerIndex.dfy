/**
 The single-pass indexes over the property list, and the owner guard that reads
 one of them or scans the list when there is none: its decision is the same.
 */
module OwnerIndex {
  import opened Options
  import opened JsText
  import opened Sequences

  datatype Property = Property(assessmentNumber: Str, ownerIds: seq<Str>, landUse: Str, suburb: Str)

  datatype Tenement = Tenement(id: Str, intersects: seq<Str>)

  type Index<T> = map<Str, seq<T>>

  function Rural(): Str { Ascii("Rural") }

  function Push<T>(m: Index<T>, k: Str, x: T): Index<T> {
    m[k := if k in m then m[k] + [x] else [x]]
  }

  // One copy for each time a key names the element.
  function Copies<T>(keys: seq<Str>, k: Str, x: T): seq<T> {
    if keys == [] then []
    else Copies(keys[..|keys| - 1], k, x) + if keys[|keys| - 1] == k then [x] else []
  }

  // What the single pass files under a key: each element in list order, once for each time it names the key.
  function Filed<T>(xs: seq<T>, keysOf: T -> seq<Str>, k: Str): seq<T> {
    if xs == [] then []
    else Filed(xs[..|xs| - 1], keysOf, k) + Copies(keysOf(xs[|xs| - 1]), k, xs[|xs| - 1])
  }

  const OWNERS: Property -> seq<Str> := (p: Property) => p.ownerIds

  const RURAL_SUBURB: Property -> seq<Str> := (p: Property) => if p.landUse == Rural() then [p.suburb] else []

  const CROSSED: Tenement -> seq<Str> := (t: Tenement) => t.intersects

  // The index has a bucket for the keys with elements and for no others.
  ghost predicate Indexes<T>(m: Index<T>, listed: Str -> seq<T>) {
    forall k: Str :: (if k in m then m[k] != [] && m[k] == listed(k) else listed(k) == [])
  }

  lemma Pushed<T>(m: Index<T>, was: Str -> seq<T>, now: Str -> seq<T>, k: Str, x: T)
    requires Indexes(m, was)
    requires forall a: Str :: now(a) == was(a) + if a == k then [x] else []
    ensures Indexes(Push(m, k, x), now)
  {
  }

  lemma Relisted<T>(m: Index<T>, was: Str -> seq<T>, now: Str -> seq<T>)
    requires Indexes(m, was) && forall a: Str :: now(a) == was(a)
    ensures Indexes(m, now)
  {
  }

  // Files one element under each of its keys.
  method FileUnder<T>(m: Index<T>, keys: seq<Str>, x: T, ghost was: Str -> seq<T>) returns (n: Index<T>)
    requires Indexes(m, was)
    ensures Indexes(n, k => was(k) + Copies(keys, k, x))
  {
    hide Indexes;
    n := m;
    Relisted(n, was, k => was(k) + Copies(keys[..0], k, x));
    for j := 0 to |keys|
      invariant Indexes(n, k => was(k) + Copies(keys[..j], k, x))
    {
      assert keys[..j + 1][..j] == keys[..j];
      Pushed(n, k => was(k) + Copies(keys[..j], k, x), k => was(k) + Copies(keys[..j + 1], k, x), keys[j], x);
      n := Push(n, keys[j], x);
    }
    assert keys[..|keys|] == keys;
  }

  method IndexTenements(ts: seq<Tenement>) returns (byAssessment: Index<Tenement>)
    ensures Indexes(byAssessment, a => Filed(ts, CROSSED, a))
  {
    byAssessment := map[];
    for i := 0 to |ts|
      invariant Indexes(byAssessment, a => Filed(ts[..i], CROSSED, a))
    {
      assert ts[..i + 1][..i] == ts[..i];
      byAssessment := FileUnder(byAssessment, ts[i].intersects, ts[i], a => Filed(ts[..i], CROSSED, a));
    }
    assert ts[..|ts|] == ts;
  }

  method IndexProperties(ps: seq<Property>) returns (byOwner: Index<Property>, ruralBySuburb: Index<Property>)
    ensures Indexes(byOwner, id => Filed(ps, OWNERS, id))
    ensures Indexes(ruralBySuburb, s => Filed(ps, RURAL_SUBURB, s))
  {
    byOwner, ruralBySuburb := map[], map[];
    for i := 0 to |ps|
      invariant Indexes(byOwner, id => Filed(ps[..i], OWNERS, id))
      invariant Indexes(ruralBySuburb, s => Filed(ps[..i], RURAL_SUBURB, s))
    {
      hide Indexes, Filed, Copies;
      var p := ps[i];
      FiledSnoc(ps, i, OWNERS);
      FiledSnoc(ps, i, RURAL_SUBURB);
      RuralCopies(p);
      byOwner := FileUnder(byOwner, p.ownerIds, p, id => Filed(ps[..i], OWNERS, id));
      Relisted(byOwner, id => Filed(ps[..i], OWNERS, id) + Copies(p.ownerIds, id, p), id => Filed(ps[..i + 1], OWNERS, id));
      if p.landUse == Rural() {
        Pushed(ruralBySuburb, s => Filed(ps[..i], RURAL_SUBURB, s), s => Filed(ps[..i + 1], RURAL_SUBURB, s), p.suburb, p);
        ruralBySuburb := Push(ruralBySuburb, p.suburb, p);
      } else {
        Relisted(ruralBySuburb, s => Filed(ps[..i], RURAL_SUBURB, s), s => Filed(ps[..i + 1], RURAL_SUBURB, s));
      }
    }
    assert ps[..|ps|] == ps;
  }

  lemma FiledSnoc<T>(xs: seq<T>, i: nat, keysOf: T -> seq<Str>)
    requires i < |xs|
    ensures forall k: Str ::
              Filed(xs[..i + 1], keysOf, k) == Filed(xs[..i], keysOf, k) + Copies(keysOf(xs[i]), k, xs[i])
  {
    assert xs[..i + 1][..i] == xs[..i];
  }

  lemma RuralCopies(p: Property)
    ensures forall s: Str :: Copies(RURAL_SUBURB(p), s, p) == if p.landUse == Rural() && s == p.suburb then [p] else []
  {
    var none: seq<Str> := [];
    assert [p.suburb][..0] == none;
  }

  // ---------- index and scan ----------

  // The order-preserving filter: the elements that name the key.
  function Scan<T>(xs: seq<T>, keysOf: T -> seq<Str>, k: Str): seq<T> {
    if xs == [] then []
    else Scan(xs[..|xs| - 1], keysOf, k) + if k in keysOf(xs[|xs| - 1]) then [xs[|xs| - 1]] else []
  }

  function Count(keys: seq<Str>, k: Str): nat {
    if keys == [] then 0 else Count(keys[..|keys| - 1], k) + if keys[|keys| - 1] == k then 1 else 0
  }

  lemma {:induction false} CopiesCounted<T>(keys: seq<Str>, k: Str, x: T)
    ensures |Copies(keys, k, x)| == Count(keys, k)
    ensures forall y :: y in Copies(keys, k, x) <==> y == x && k in keys
    ensures Count(keys, k) == 0 <==> k !in keys
    ensures Count(keys, k) == 1 ==> Copies(keys, k, x) == [x]
  {
    if keys != [] {
      CopiesCounted(keys[..|keys| - 1], k, x);
      assert keys == keys[..|keys| - 1] + [keys[|keys| - 1]];
    }
  }

  lemma {:induction false} ScanNoLonger<T>(xs: seq<T>, keysOf: T -> seq<Str>, k: Str)
    ensures |Scan(xs, keysOf, k)| <= |Filed(xs, keysOf, k)|
    ensures forall x :: x in Scan(xs, keysOf, k) <==> x in Filed(xs, keysOf, k)
    ensures forall x :: x in Scan(xs, keysOf, k) <==> x in xs && k in keysOf(x)
  {
    if xs != [] {
      var before, last := xs[..|xs| - 1], xs[|xs| - 1];
      ScanNoLonger(before, keysOf, k);
      CopiesCounted(keysOf(last), k, last);
      assert xs == before + [last];
    }
  }

  /**
   A bucket of the single pass is the order-preserving filter for its key exactly
   when no element names the key twice: owners, assessments and suburbs alike.
   */
  lemma {:induction false} BucketIsScan<T>(xs: seq<T>, keysOf: T -> seq<Str>, k: Str)
    ensures Filed(xs, keysOf, k) == Scan(xs, keysOf, k) <==> forall x <- xs :: Count(keysOf(x), k) <= 1
  {
    if xs != [] {
      var before, last := xs[..|xs| - 1], xs[|xs| - 1];
      BucketIsScan(before, keysOf, k);
      ScanNoLonger(before, keysOf, k);
      CopiesCounted(keysOf(last), k, last);
      assert xs == before + [last];
      if Count(keysOf(last), k) > 1 {
        assert |Filed(xs, keysOf, k)| > |Scan(xs, keysOf, k)|;
      } else {
        SameTail(Filed(before, keysOf, k), Scan(before, keysOf, k), Copies(keysOf(last), k, last));
      }
    }
  }

  /** A tenement index agrees with the filter for an assessment if and only if no tenement lists it twice. */
  lemma TenementBucketIsScan(index: Index<Tenement>, ts: seq<Tenement>, assessment: Str)
    requires Indexes(index, a => Filed(ts, CROSSED, a))
    ensures (if assessment in index then index[assessment] else []) == Scan(ts, CROSSED, assessment) <==>
            forall t <- ts :: Count(t.intersects, assessment) <= 1
  {
    BucketIsScan(ts, CROSSED, assessment);
  }

  /** A rural suburb's bucket is always the filter: a property lies in one suburb. */
  lemma RuralBucketIsScan(index: Index<Property>, ps: seq<Property>, suburb: Str)
    requires Indexes(index, s => Filed(ps, RURAL_SUBURB, s))
    ensures (if suburb in index then index[suburb] else []) == Scan(ps, RURAL_SUBURB, suburb)
  {
    forall p | p in ps ensures Count(RURAL_SUBURB(p), suburb) <= 1 {
      var none: seq<Str> := [];
      assert [p.suburb][..0] == none;
    }
    BucketIsScan(ps, RURAL_SUBURB, suburb);
  }

  lemma SameTail<T>(a: seq<T>, b: seq<T>, c: seq<T>)
    ensures a + c == b + c <==> a == b
  {
    if a + c == b + c {
      assert |a| == |b|;
      assert a == (a + c)[..|a|] == b;
    }
  }

  // ---------- the guard ----------

  function Capitals(s: Str): nat {
    if s != [] && 0x41 <= s[0] <= 0x5A then 1 + Capitals(s[1..]) else 0
  }

  // The code before the first hyphen: two to five capitals.
  function TenantFromAssessmentNumber(s: Str): Option<Str> {
    var n := Capitals(s);
    if 2 <= n <= 5 && n < |s| && s[n] == 0x2D then Some(s[..n]) else None
  }

  datatype Scope = Scope(tenantId: Str, admin: bool, permitted: bool)

  datatype WhenShared = AllowShared | RedactShared | DenyShared

  datatype Decision = Allow | AllowRedacted | NotFound | Forbidden

  // `owner` is the input's owner id, when it has one that is a text.
  function OwnerGuard(index: Option<Index<Property>>, ps: seq<Property>, scope: Scope, whenShared: WhenShared,
                      owner: Option<Str>): Decision {
    if !scope.permitted then Forbidden
    else if scope.admin || owner.None? then Allow
    else
      var id := owner.value;
      var portfolio := if index.Some? && id in index.value then index.value[id] else Scan(ps, OWNERS, id);
      if Some(scope.tenantId) !in Tenants(portfolio) then NotFound
      else if whenShared.AllowShared? || |Tenants(portfolio) - {None}| <= 1 then Allow
      else if whenShared.DenyShared? then Forbidden
      else AllowRedacted
  }

  function Tenants(portfolio: seq<Property>): set<Option<Str>> {
    set p <- portfolio :: TenantFromAssessmentNumber(p.assessmentNumber)
  }

  /** Through the index or without one, whatever the property list, the guard decides alike. */
  lemma IndexDecidesAlike(index: Index<Property>, ps: seq<Property>, scope: Scope, whenShared: WhenShared, owner: Option<Str>)
    requires Indexes(index, id => Filed(ps, OWNERS, id))
    ensures OwnerGuard(Some(index), ps, scope, whenShared, owner) == OwnerGuard(None, ps, scope, whenShared, owner)
  {
    if owner.Some? {
      ScanNoLonger(ps, OWNERS, owner.value);
      assert Tenants(Filed(ps, OWNERS, owner.value)) == Tenants(Scan(ps, OWNERS, owner.value));
    }
  }

  predicate Holds(ps: seq<Property>, id: Str, tenant: Str) {
    exists p <- ps :: id in p.ownerIds && TenantFromAssessmentNumber(p.assessmentNumber) == Some(tenant)
  }

  lemma TenantsHeld(ps: seq<Property>, id: Str)
    ensures forall t: Str :: Some(t) in Tenants(Scan(ps, OWNERS, id)) <==> Holds(ps, id, t)
  {
  }

  /**
   What the guard grants an ordinary caller: nothing of an owner without property
   in the caller's council, and of one with property in another council too only
   what sharing allows.
   */
  lemma GuardGrants(ps: seq<Property>, scope: Scope, whenShared: WhenShared, id: Str)
    requires scope.permitted && !scope.admin
    ensures (var d, elsewhere := OwnerGuard(None, ps, scope, whenShared, Some(id)),
                                 exists t: Str :: t != scope.tenantId && Holds(ps, id, t);
             && (d == NotFound <==> !Holds(ps, id, scope.tenantId))
             && (d == Forbidden <==> Holds(ps, id, scope.tenantId) && elsewhere && whenShared.DenyShared?)
             && (d == AllowRedacted <==> Holds(ps, id, scope.tenantId) && elsewhere && whenShared.RedactShared?))
  {
    hide Scan, TenantFromAssessmentNumber;
    var ts := Tenants(Scan(ps, OWNERS, id)) - {None};
    TenantsHeld(ps, id);
    hide Holds, Tenants;
    if Some(scope.tenantId) in ts {
      if t: Str :| t != scope.tenantId && Holds(ps, id, t) {
        assert {Some(scope.tenantId), Some(t)} <= ts;
        SubsetSize({Some(scope.tenantId), Some(t)}, ts);
      } else {
        forall o | o in ts ensures o == Some(scope.tenantId) {
          assert Holds(ps, id, o.value);
        }
        assert ts == {Some(scope.tenantId)};
      }
    }
  }

  /**
   What the guard decides: no permission is forbidden; an administrator, or an input
   without an owner, is allowed; anyone else gets nothing of an owner without
   property in the caller's council, and of one with property in another council
   too only what sharing allows.
   */
  lemma GuardDecides(ps: seq<Property>, scope: Scope, whenShared: WhenShared, owner: Option<Str>)
    ensures (var d := OwnerGuard(None, ps, scope, whenShared, owner);
             var scoped := scope.permitted && !scope.admin && owner.Some?;
             var here := owner.Some? && Holds(ps, owner.value, scope.tenantId);
             var elsewhere := owner.Some? && exists t: Str :: t != scope.tenantId && Holds(ps, owner.value, t);
             && (d == NotFound <==> scoped && !here)
             && (d == Forbidden <==> !scope.permitted || (scoped && here && elsewhere && whenShared.DenyShared?))
             && (d == AllowRedacted <==> scoped && here && elsewhere && whenShared.RedactShared?))
  {
    hide Scan, TenantFromAssessmentNumber, Holds, Tenants;
    if scope.permitted && !scope.admin && owner.Some? { GuardGrants(ps, scope, whenShared, owner.value); }
  }

  // Two to five capital letters.
  predicate CouncilCode(t: Str) { 2 <= |t| <= 5 && forall i :: 0 <= i < |t| ==> 'A' as int <= t[i] <= 'Z' as int }

  lemma {:induction false} CapitalsCounted(s: Str)
    ensures Capitals(s) <= |s| && (forall i :: 0 <= i < Capitals(s) ==> 'A' as int <= s[i] <= 'Z' as int)
    ensures Capitals(s) < |s| ==> !('A' as int <= s[Capitals(s)] <= 'Z' as int)
  {
    if s != [] && 'A' as int <= s[0] <= 'Z' as int { CapitalsCounted(s[1..]); }
  }

  /** The council of an assessment number is the two to five capitals before its first hyphen, if it starts that way. */
  lemma CouncilExactly(s: Str, t: Str)
    ensures TenantFromAssessmentNumber(s) == Some(t) <==>
            CouncilCode(t) && |t| < |s| && s[..|t|] == t && s[|t|] == '-' as int
  {
    CapitalsCounted(s);
    var n := Capitals(s);
    if CouncilCode(t) && |t| < |s| && s[..|t|] == t && s[|t|] == '-' as int {
      assert forall i :: 0 <= i < |t| ==> s[i] == s[..|t|][i];
      assert n == |t|;
    }
    if TenantFromAssessmentNumber(s) == Some(t) { assert forall i :: 0 <= i < n ==> s[..n][i] == s[i]; }
  }
}
