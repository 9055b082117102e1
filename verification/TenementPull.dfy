/**
 Pulling the tenements of a box tile by tile: cache hits are free, misses are
 fetched up to eight at a time, features are kept once per id, and the pull
 stops at a cap. It returns what a plain pass over all tiles would.
 */
module TenementPull {
  import opened Options
  import opened JsText
  import Sequences

  const SLIP_PARALLEL := 8

  datatype Feature = Feature(id: Str, properties: Str)

  datatype Fetch = Fetched(features: seq<Feature>) | Unreachable

  // What the tile service answers for a tile, by its place in tile order.
  type Answers = nat -> Fetch

  // Everything the service holds on a tile; None when the tile cannot be reached.
  type Service = nat -> Option<seq<Feature>>

  type Cache = map<nat, seq<Feature>>

  datatype Pull = Pulled(features: seq<Feature>, tilesQueried: nat, cacheHits: nat) | Failed

  // ---------- the plain pass ----------

  const MAX_RECORDS := 2000

  // How many records a pull with this cap asks for on each tile.
  function Records(max: int): nat {
    if max <= 0 then 0 else if max < MAX_RECORDS then max else MAX_RECORDS
  }

  function Truncated(features: seq<Feature>, records: nat): seq<Feature> {
    if |features| <= records then features else features[..records]
  }

  function Answering(service: Service, records: nat): Answers {
    (tile: nat) => match service(tile) case None => Unreachable case Some(fs) => Fetched(Truncated(fs, records))
  }

  /** A tile answers with the first of its features, all of them if there are no more than the cap and 2000. */
  lemma AnswersFirst(service: Service, max: int, tile: nat)
    requires service(tile).Some? && max > 0
    ensures (var all := service(tile).value;
             var n := if |all| <= max && |all| <= 2000 then |all| else if max <= 2000 then max else 2000;
             Answering(service, Records(max))(tile) == Fetched(all[..n]))
  {
    assert service(tile).value[..|service(tile).value|] == service(tile).value;
  }

  // A tile's features, from the cache when it has them.
  function Source(hits: Cache, fetch: Answers, tile: nat): Fetch {
    if tile in hits then Fetched(hits[tile]) else fetch(tile)
  }

  // The features of the tiles before `count`, in tile order.
  function Concat(hits: Cache, fetch: Answers, count: nat): seq<Feature> {
    if count == 0 then []
    else
      Concat(hits, fetch, count - 1) +
      match Source(hits, fetch, count - 1) { case Fetched(fs) => fs case Unreachable => [] }
  }

  function Ids(features: seq<Feature>): set<Str> {
    set f <- features :: f.id
  }

  // The features whose id has not come before.
  function Distinct(features: seq<Feature>): seq<Feature> {
    if features == [] then []
    else
      var n := |features| - 1;
      var before := Distinct(features[..n]);
      if features[n].id in Ids(features[..n]) then before else before + [features[n]]
  }

  function Capped(features: seq<Feature>, max: int): seq<Feature> {
    if max <= 0 then [] else if |features| <= max then features else features[..max]
  }

  // Where the batch that begins here ends: after its eighth miss.
  function BatchEnd(hits: Cache, tile: nat, count: nat, misses: nat): (end: nat)
    requires tile <= count
    ensures tile <= end <= count
    ensures tile < count && misses < SLIP_PARALLEL ==> tile < end
    decreases count - tile
  {
    if tile < count && misses < SLIP_PARALLEL then
      BatchEnd(hits, tile + 1, count, if tile in hits then misses else misses + 1)
    else tile
  }

  // The tiles to fetch in a range, in order.
  function Misses(hits: Cache, from: nat, until: nat): (ts: seq<nat>)
    ensures forall t :: t in ts <==> from <= t < until && t !in hits
  {
    if until <= from then []
    else
      var before := Misses(hits, from, until - 1);
      if until - 1 in hits then before else before + [until - 1]
  }

  ghost predicate Blocked(hits: Cache, fetch: Answers, from: nat, until: nat) {
    exists t :: from <= t < until && Source(hits, fetch, t).Unreachable?
  }

  // Whether the pull meets an unreachable tile in a batch it still needs.
  ghost predicate Fails(hits: Cache, fetch: Answers, count: nat, max: int, tile: nat)
    requires tile <= count
    decreases count - tile
  {
    && tile < count && |Distinct(Concat(hits, fetch, tile))| < max
    && var end := BatchEnd(hits, tile, count, 0);
       Blocked(hits, fetch, tile, end) || Fails(hits, fetch, count, max, end)
  }

  // The first end of a batch at which the cap is reached, or the end.
  function StopAt(hits: Cache, fetch: Answers, count: nat, max: int, tile: nat): (stop: nat)
    requires tile <= count
    ensures tile <= stop <= count
    decreases count - tile
  {
    if tile == count || |Distinct(Concat(hits, fetch, tile))| >= max then tile
    else StopAt(hits, fetch, count, max, BatchEnd(hits, tile, count, 0))
  }

  // ---------- facts about the plain pass ----------

  lemma OneMore(features: seq<Feature>, f: Feature)
    ensures Distinct(features + [f]) ==
            if f.id in Ids(features) then Distinct(features) else Distinct(features) + [f]
    ensures Ids(features + [f]) == Ids(features) + {f.id}
  {
  }

  lemma {:induction false} DistinctIds(features: seq<Feature>)
    ensures Ids(Distinct(features)) == Ids(features)
  {
    if features != [] {
      hide Ids, Distinct;
      var before, last := features[..|features| - 1], features[|features| - 1];
      DistinctIds(before);
      assert features == before + [last];
      OneMore(before, last);
      OneMore(Distinct(before), last);
    }
  }

  lemma {:induction false} DistinctPrefix(a: seq<Feature>, b: seq<Feature>)
    ensures Distinct(a) <= Distinct(a + b)
  {
    if b == [] {
      assert a + b == a;
    } else {
      var n := |b| - 1;
      DistinctPrefix(a, b[..n]);
      assert (a + b)[..|a + b| - 1] == a + b[..n];
    }
  }

  lemma {:induction false} ConcatPrefix(hits: Cache, fetch: Answers, k: nat, count: nat)
    requires k <= count
    ensures Concat(hits, fetch, k) <= Concat(hits, fetch, count)
  {
    if k < count { ConcatPrefix(hits, fetch, k, count - 1); }
  }

  // Once the cap is reached, reading on changes nothing.
  lemma CapSettles(a: seq<Feature>, b: seq<Feature>, max: int)
    requires a <= b && |Distinct(a)| >= max
    ensures |Distinct(b)| >= max && Capped(Distinct(b), max) == Capped(Distinct(a), max)
  {
    assert b == a + b[|a|..];
    DistinctPrefix(a, b[|a|..]);
  }

  lemma NothingRead(hits: Cache, fetch: Answers)
    ensures Concat(hits, fetch, 0) == [] && Distinct([]) == [] && Ids([]) == {} && Misses(hits, 0, 0) == []
  {
  }

  lemma StopsAt(hits: Cache, fetch: Answers, count: nat, max: int, tile: nat)
    requires tile <= count
    requires tile == count || |Distinct(Concat(hits, fetch, tile))| >= max
    ensures !Fails(hits, fetch, count, max, tile) && StopAt(hits, fetch, count, max, tile) == tile
  {
  }

  ghost predicate FirstOfItsId(features: seq<Feature>, f: Feature) {
    exists k :: 0 <= k < |features| && features[k] == f && f.id !in Ids(features[..k])
  }

  /** What the plain pass keeps: of each id, the first feature and no other. */
  lemma {:induction false} DistinctKeepsFirsts(features: seq<Feature>, f: Feature)
    ensures f in Distinct(features) <==> FirstOfItsId(features, f)
  {
    hide Ids, Distinct, FirstOfItsId;
    if features == [] {
      NoFirst(f);
      NoFeatures();
    } else {
      var n := |features| - 1;
      DistinctKeepsFirsts(features[..n], f);
      OneMore(features[..n], features[n]);
      FirstSnoc(features[..n], features[n], f);
      assert features == features[..n] + [features[n]];
    }
  }

  lemma NoFirst(f: Feature)
    ensures !FirstOfItsId([], f)
  {
  }

  lemma FirstSnoc(before: seq<Feature>, g: Feature, f: Feature)
    ensures FirstOfItsId(before + [g], f) <==> FirstOfItsId(before, f) || (g == f && f.id !in Ids(before))
  {
    hide Ids;
    var more := before + [g];
    assert more[|before|] == g && forall k :: 0 <= k <= |before| ==> more[..k] == before[..k];
    assert forall k :: 0 <= k < |before| ==> more[k] == before[k];
  }

  /** No two features of the result share an id. */
  lemma {:induction false} DistinctIdsDiffer(features: seq<Feature>, i: nat, j: nat)
    requires i < j < |Distinct(features)|
    ensures Distinct(features)[i].id != Distinct(features)[j].id
  {
    var before := features[..|features| - 1];
    if j < |Distinct(before)| {
      DistinctIdsDiffer(before, i, j);
    } else {
      DistinctIds(before);
      assert Distinct(before)[i].id in Ids(Distinct(before));
    }
  }

  lemma ConcatStep(hits: Cache, fetch: Answers, tile: nat, features: seq<Feature>)
    requires Source(hits, fetch, tile) == Fetched(features)
    ensures Concat(hits, fetch, tile + 1) == Concat(hits, fetch, tile) + features
  {
  }

  lemma FailsStep(hits: Cache, fetch: Answers, count: nat, max: int, tile: nat)
    requires tile < count && |Distinct(Concat(hits, fetch, tile))| < max
    ensures (var end := BatchEnd(hits, tile, count, 0);
             Fails(hits, fetch, count, max, tile) <==>
             || (exists t <- Misses(hits, tile, end) :: fetch(t).Unreachable?)
             || Fails(hits, fetch, count, max, end))
    ensures StopAt(hits, fetch, count, max, tile) ==
            StopAt(hits, fetch, count, max, BatchEnd(hits, tile, count, 0))
  {
    BatchBlocked(hits, fetch, tile, BatchEnd(hits, tile, count, 0));
  }

  lemma {:induction false} BatchBlocked(hits: Cache, fetch: Answers, from: nat, until: nat)
    ensures Blocked(hits, fetch, from, until) <==> exists t <- Misses(hits, from, until) :: fetch(t).Unreachable?
  {
    var misses := Misses(hits, from, until);
    if Blocked(hits, fetch, from, until) {
      var t :| from <= t < until && Source(hits, fetch, t).Unreachable?;
      assert t in misses;
    }
    if t :| t in misses && fetch(t).Unreachable? {
      assert Source(hits, fetch, t).Unreachable?;
    }
  }

  lemma {:induction false} MissesJoin(hits: Cache, a: nat, b: nat, c: nat)
    requires a <= b <= c
    ensures Misses(hits, a, c) == Misses(hits, a, b) + Misses(hits, b, c)
  {
    if b < c { MissesJoin(hits, a, b, c - 1); }
  }

  lemma {:induction false} MissesUpTo(hits: Cache, from: nat, until: nat, k: nat)
    requires k < |Misses(hits, from, until)|
    ensures (var t := Misses(hits, from, until)[k];
             from <= t < until && t !in hits && Misses(hits, from, t) == Misses(hits, from, until)[..k])
  {
    assert Misses(hits, from, until)[k] in Misses(hits, from, until);
    var before := Misses(hits, from, until - 1);
    if k < |before| {
      MissesUpTo(hits, from, until - 1, k);
    } else {
      assert Misses(hits, from, until)[..k] == before;
    }
  }

  lemma MissesCut(hits: Cache, a: nat, b: nat, c: nat, k: nat)
    requires a <= b <= c && k < |Misses(hits, b, c)|
    ensures (var t := Misses(hits, b, c)[k];
             && b <= t < c && t !in hits
             && Misses(hits, a, t) == Misses(hits, a, b) + Misses(hits, b, c)[..k])
  {
    hide Misses;
    MissesUpTo(hits, b, c, k);
    MissesJoin(hits, a, b, Misses(hits, b, c)[k]);
  }

  /**
   What a pull leaves in the cache: entries are only added, or replaced when the
   cache was not consulted, and always by what the service answered.
   */
  ghost predicate Kept(was: Cache, now: Cache, hits: Cache, fetch: Answers, writable: nat -> bool) {
    && (forall t <- was :: t in now)
    && (forall t <- now :: t !in was || now[t] != was[t] ==>
         t !in hits && fetch(t) == Fetched(now[t]) && writable(t))
  }

  // Every tile fetched is in the cache, unless its file could not be written.
  ghost predicate Stored(now: Cache, fetched: seq<nat>, fetch: Answers, writable: nat -> bool) {
    forall t <- fetched :: writable(t) ==> t in now && fetch(t) == Fetched(now[t])
  }

  lemma StaysStored(was: Cache, now: Cache, before: seq<nat>, jobs: seq<nat>, hits: Cache, fetch: Answers, writable: nat -> bool)
    requires Kept(was, now, hits, fetch, writable)
    requires Stored(was, before, fetch, writable) && Stored(now, jobs, fetch, writable)
    ensures Stored(now, before + jobs, fetch, writable)
  {
  }

  lemma NothingStored(was: Cache, fetch: Answers, writable: nat -> bool, hits: Cache)
    ensures Kept(was, was, hits, fetch, writable) && Stored(was, [], fetch, writable)
  {
  }

  lemma KeptTwice(was: Cache, mid: Cache, now: Cache, hits: Cache, fetch: Answers, writable: nat -> bool)
    requires Kept(was, mid, hits, fetch, writable) && Kept(mid, now, hits, fetch, writable)
    ensures Kept(was, now, hits, fetch, writable)
  {
  }

  // ---------- the pull ----------

  class TileCache {
    var stored: Cache

    constructor ()
      ensures stored == map[]
    {
      stored := map[];
    }

    // Adds a tile's new features, up to the cap; `before` is everything read earlier.
    method Absorb(feats: seq<Feature>, all: seq<Feature>, seen: set<Str>, max: int, ghost before: seq<Feature>)
      returns (all2: seq<Feature>, seen2: set<Str>, full: bool)
      requires all == Distinct(before) && seen == Ids(before) && |all| < max
      ensures all2 == Capped(Distinct(before + feats), max)
      ensures full <==> |Distinct(before + feats)| >= max
      ensures !full ==> seen2 == Ids(before + feats)
    {
      hide Distinct, Ids;
      all2, seen2, full := all, seen, false;
      ghost var read := before;
      assert before + feats[..0] == before;
      for k := 0 to |feats|
        invariant read == before + feats[..k]
        invariant all2 == Distinct(read) && seen2 == Ids(read) && |all2| < max
      {
        var feat := feats[k];
        OneMore(read, feat);
        read := read + [feat];
        assert read == before + feats[..k + 1] <= before + feats;
        if feat.id in seen2 { continue; }
        seen2 := seen2 + {feat.id};
        all2 := all2 + [feat];
        if |all2| >= max {
          full := true;
          CapSettles(read, before + feats, max);
          return;
        }
      }
      assert feats[..|feats|] == feats;
    }

    // Adds the features of a batch's tiles in tile order.
    method Drain(slots: seq<Option<seq<Feature>>>, all: seq<Feature>, seen: set<Str>, max: int,
                 ghost hits: Cache, ghost fetch: Answers, ghost start: nat)
      returns (all2: seq<Feature>, seen2: set<Str>, full: bool)
      requires all == Distinct(Concat(hits, fetch, start)) && seen == Ids(Concat(hits, fetch, start)) && |all| < max
      requires forall j :: 0 <= j < |slots| ==>
                 slots[j].Some? && Source(hits, fetch, start + j) == Fetched(slots[j].value)
      ensures (var read := Concat(hits, fetch, start + |slots|);
               && all2 == Capped(Distinct(read), max)
               && (full <==> |Distinct(read)| >= max)
               && (!full ==> seen2 == Ids(read)))
    {
      hide Distinct, Ids, Concat, Source;
      all2, seen2, full := all, seen, false;
      for j := 0 to |slots|
        invariant all2 == Distinct(Concat(hits, fetch, start + j)) && seen2 == Ids(Concat(hits, fetch, start + j))
        invariant |all2| < max && !full
      {
        ConcatStep(hits, fetch, start + j, slots[j].value);
        all2, seen2, full := Absorb(slots[j].value, all2, seen2, max, Concat(hits, fetch, start + j));
        if full {
          ConcatPrefix(hits, fetch, start + j + 1, start + |slots|);
          CapSettles(Concat(hits, fetch, start + j + 1), Concat(hits, fetch, start + |slots|), max);
          return;
        }
      }
    }

    // A batch's features by place in the batch: the cached ones, then each answer in its slot.
    method Fill(hits: Cache, start: nat, end: nat, jobs: seq<nat>, answers: seq<seq<Feature>>, ghost fetch: Answers)
      returns (slots: seq<Option<seq<Feature>>>)
      requires start <= end && jobs == Misses(hits, start, end)
      requires |answers| == |jobs| && forall k :: 0 <= k < |jobs| ==> fetch(jobs[k]) == Fetched(answers[k])
      ensures |slots| == end - start
      ensures forall j :: 0 <= j < |slots| ==>
                slots[j].Some? && Source(hits, fetch, start + j) == Fetched(slots[j].value)
    {
      slots := seq(end - start, j requires 0 <= j => if start + j in hits then Some(hits[start + j]) else None);
      for k := 0 to |jobs|
        invariant |slots| == end - start
        invariant forall j :: 0 <= j < |slots| && slots[j].Some? ==>
                    Source(hits, fetch, start + j) == Fetched(slots[j].value)
        invariant forall j :: 0 <= j < |slots| && slots[j].None? ==> start + j !in hits && start + j !in jobs[..k]
      {
        assert jobs[k] in jobs;
        assert jobs[..k + 1] == jobs[..k] + [jobs[k]];
        slots := slots[jobs[k] - start := Some(answers[k])];
      }
      assert jobs[..|jobs|] == jobs;
    }

    // Fetches a batch side by side; every answer before a failure is stored.
    method FetchBatch(jobs: seq<nat>, fetch: Answers, writable: nat -> bool, ghost hits: Cache)
      returns (results: Option<seq<seq<Feature>>>, ghost failed: nat)
      requires |jobs| <= SLIP_PARALLEL
      requires forall t <- jobs :: t !in hits
      modifies this
      ensures Kept(old(stored), stored, hits, fetch, writable)
      ensures results.None? <==> exists t <- jobs :: fetch(t).Unreachable?
      ensures results.None? ==>
                && failed < |jobs| && fetch(jobs[failed]).Unreachable?
                && (forall j :: 0 <= j < failed ==> fetch(jobs[j]).Fetched?)
                && Stored(stored, jobs[..failed], fetch, writable)
      ensures results.Some? ==> Stored(stored, jobs, fetch, writable)
      ensures results.Some? ==> |results.value| == |jobs|
      ensures results.Some? ==> forall k :: 0 <= k < |jobs| ==> fetch(jobs[k]) == Fetched(results.value[k])
    {
      var answers := [];
      for k := 0 to |jobs|
        invariant |answers| == k
        invariant forall j :: 0 <= j < k ==> fetch(jobs[j]) == Fetched(answers[j])
        invariant Stored(stored, jobs[..k], fetch, writable)
        invariant Kept(old(stored), stored, hits, fetch, writable)
      {
        assert jobs[..k + 1] == jobs[..k] + [jobs[k]];
        match fetch(jobs[k])
        case Unreachable =>
          assert jobs[k] in jobs;
          return None, k;
        case Fetched(fs) =>
          if writable(jobs[k]) {
            stored := stored[jobs[k] := fs];
          }
          answers := answers + [fs];
      }
      assert jobs[..|jobs|] == jobs;
      return Some(answers), 0;
    }

    method CountHits(hits: Cache, count: nat) returns (cacheHits: nat)
      ensures cacheHits + |Misses(hits, 0, count)| == count
    {
      cacheHits := 0;
      for t := 0 to count
        invariant cacheHits + |Misses(hits, 0, t)| == t
      {
        if t in hits { cacheHits := cacheHits + 1; }
      }
    }

    // Tiles are taken until the eighth miss.
    method NextBatch(hits: Cache, start: nat, count: nat) returns (end: nat, jobs: seq<nat>)
      requires start < count
      ensures end == BatchEnd(hits, start, count, 0) && jobs == Misses(hits, start, end)
      ensures |jobs| <= SLIP_PARALLEL
    {
      end, jobs := start, [];
      while end < count && |jobs| < SLIP_PARALLEL
        invariant start <= end <= count && |jobs| <= SLIP_PARALLEL
        invariant jobs == Misses(hits, start, end)
        invariant BatchEnd(hits, end, count, |jobs|) == BatchEnd(hits, start, count, 0)
        decreases count - end
      {
        if end !in hits { jobs := jobs + [end]; }
        end := end + 1;
      }
    }

    method PullTenements(count: nat, refresh: bool, maxTotal: int, service: Service, writable: nat -> bool)
      returns (r: Pull, ghost upto: nat)
      modifies this
      ensures (var hits := if refresh then map[] else old(stored);
               var fetch := Answering(service, Records(maxTotal));
               && Kept(old(stored), stored, hits, fetch, writable)
               && Stored(stored, Misses(hits, 0, upto), fetch, writable)
               && (r.Failed? <==> Fails(hits, fetch, count, maxTotal, 0))
               && (r.Failed? ==>
                    && upto < count && upto !in hits && fetch(upto).Unreachable?
                    && forall t <- Misses(hits, 0, upto) :: fetch(t).Fetched?)
               && (r.Pulled? ==>
                    && upto == StopAt(hits, fetch, count, maxTotal, 0)
                    && r.features == Capped(Distinct(Concat(hits, fetch, count)), maxTotal)
                    && r.tilesQueried == |Misses(hits, 0, upto)|
                    && r.cacheHits + |Misses(hits, 0, count)| == count))
    {
      hide Answering;
      var fetch := Answering(service, Records(maxTotal));
      hide Distinct, Ids, Concat, Misses, BatchEnd, Source, Fails, StopAt, Kept, Stored;
      NothingStored(stored, fetch, writable, if refresh then map[] else stored);
      var hits := if refresh then map[] else stored;
      var cacheHits := CountHits(hits, count);
      var i, tilesQueried := 0, 0;
      var all: seq<Feature>, seen: set<Str> := [], {};
      NothingRead(hits, fetch);
      while i < count
        invariant i <= count
        invariant all == Capped(Distinct(Concat(hits, fetch, i)), maxTotal)
        invariant |all| < maxTotal ==> seen == Ids(Concat(hits, fetch, i))
        invariant tilesQueried == |Misses(hits, 0, i)|
        invariant Fails(hits, fetch, count, maxTotal, i) <==> Fails(hits, fetch, count, maxTotal, 0)
        invariant StopAt(hits, fetch, count, maxTotal, i) == StopAt(hits, fetch, count, maxTotal, 0)
        invariant forall t <- Misses(hits, 0, i) :: fetch(t).Fetched?
        invariant Kept(old(stored), stored, hits, fetch, writable)
        invariant Stored(stored, Misses(hits, 0, i), fetch, writable)
        decreases count - i
      {
        if |all| >= maxTotal { break; }
        var start, jobs := i, [];
        i, jobs := NextBatch(hits, start, count);
        FailsStep(hits, fetch, count, maxTotal, start);
        MissesJoin(hits, 0, start, i);
        ghost var was := stored;
        var results;
        ghost var failed;
        results, failed := FetchBatch(jobs, fetch, writable, hits);
        KeptTwice(old(stored), was, stored, hits, fetch, writable);
        if results.None? {
          MissesCut(hits, 0, start, i, failed);
          StaysStored(was, stored, Misses(hits, 0, start), jobs[..failed], hits, fetch, writable);
          return Failed, jobs[failed];
        }
        StaysStored(was, stored, Misses(hits, 0, start), jobs, hits, fetch, writable);
        tilesQueried := tilesQueried + |jobs|;
        var slots := Fill(hits, start, i, jobs, results.value, fetch);
        var full;
        all, seen, full := Drain(slots, all, seen, maxTotal, hits, fetch, start);
        if full { break; }
      }
      StopsAt(hits, fetch, count, maxTotal, i);
      if |Distinct(Concat(hits, fetch, i))| >= maxTotal {
        ConcatPrefix(hits, fetch, i, count);
        CapSettles(Concat(hits, fetch, i), Concat(hits, fetch, count), maxTotal);
      }
      return Pulled(all, tilesQueried, cacheHits), i;
    }
  }

  // ---------- what the cache changes ----------

  /** Every batch fetches at most eight tiles. */
  lemma {:induction false} BatchBounded(hits: Cache, tile: nat, count: nat, misses: nat)
    requires tile <= count && misses <= SLIP_PARALLEL
    ensures misses + |Misses(hits, tile, BatchEnd(hits, tile, count, misses))| <= SLIP_PARALLEL
    decreases count - tile
  {
    if tile < count && misses < SLIP_PARALLEL {
      var more := if tile in hits then misses else misses + 1;
      BatchBounded(hits, tile + 1, count, more);
      MissesJoin(hits, tile, tile + 1, BatchEnd(hits, tile + 1, count, more));
      assert Misses(hits, tile, tile) == [];
    }
  }

  /** Fetching stops at the batch in which the cap is first reached: before it the cap was not. */
  lemma {:induction false} StopsAtFirstFull(hits: Cache, fetch: Answers, count: nat, max: int, tile: nat, t: nat)
    requires tile <= t < count && t < StopAt(hits, fetch, count, max, tile)
    ensures exists start :: tile <= start <= t < BatchEnd(hits, start, count, 0) && |Distinct(Concat(hits, fetch, start))| < max
    decreases count - tile
  {
    var end := BatchEnd(hits, tile, count, 0);
    if t >= end {
      StopsAtFirstFull(hits, fetch, count, max, end, t);
    }
  }

  // ---------- pulls with different caps ----------

  // `hits` is `base` and more tiles, stored by pulls that asked for this many records.
  ghost predicate Extends(base: Cache, hits: Cache, service: Service, records: nat) {
    && (forall t :: t in base ==> t in hits && hits[t] == base[t])
    && (forall t :: t in hits && t !in base ==> service(t).Some? && hits[t] == Truncated(service(t).value, records))
  }

  // A tile stored for one number of records is what the service gives for another.
  predicate Fits(service: Service, tile: nat, stored: nat, asked: nat) {
    stored == asked || (service(tile).Some? ==> |service(tile).value| <= stored && |service(tile).value| <= asked)
  }

  function TileFeatures(hits: Cache, fetch: Answers, tile: nat): seq<Feature> {
    match Source(hits, fetch, tile) { case Fetched(fs) => fs case Unreachable => [] }
  }

  lemma TileCompared(base: Cache, hits: Cache, service: Service, stored: nat, asked: nat, tile: nat)
    requires Extends(base, hits, service, stored)
    ensures (var x, y := TileFeatures(hits, Answering(service, asked), tile),
                         TileFeatures(base, Answering(service, asked), tile);
             && (x == y <==> (tile in hits && tile !in base ==> Fits(service, tile, stored, asked)))
             && (|x| == |y| ==> x == y)
             && (stored <= asked ==> |x| <= |y|) && (stored >= asked ==> |x| >= |y|))
  {
  }

  /**
   Reading through tiles stored by another pull gives what reading without them
   would exactly when each such tile has no more features than either pull asks
   for, or both ask for the same number.
   */
  lemma {:induction false} StoredTilesRead(base: Cache, hits: Cache, service: Service, stored: nat, asked: nat, count: nat)
    requires Extends(base, hits, service, stored)
    ensures (var x, y := Concat(hits, Answering(service, asked), count), Concat(base, Answering(service, asked), count);
             && (x == y <==> forall t :: 0 <= t < count && t in hits && t !in base ==> Fits(service, t, stored, asked))
             && (stored <= asked ==> |x| <= |y|) && (stored >= asked ==> |x| >= |y|))
  {
    hide Fits, Answering, Source;
    if count > 0 {
      var fetch := Answering(service, asked);
      StoredTilesRead(base, hits, service, stored, asked, count - 1);
      TileCompared(base, hits, service, stored, asked, count - 1);
      ConcatTile(hits, fetch, count);
      ConcatTile(base, fetch, count);
      SameHalves(Concat(hits, fetch, count - 1), TileFeatures(hits, fetch, count - 1),
                 Concat(base, fetch, count - 1), TileFeatures(base, fetch, count - 1));
    }
  }

  lemma ConcatTile(hits: Cache, fetch: Answers, count: nat)
    requires count > 0
    ensures Concat(hits, fetch, count) == Concat(hits, fetch, count - 1) + TileFeatures(hits, fetch, count - 1)
  {
  }

  lemma SameHalves(a: seq<Feature>, x: seq<Feature>, b: seq<Feature>, y: seq<Feature>)
    requires (|a| <= |b| && |x| <= |y|) || (|a| >= |b| && |x| >= |y|)
    ensures a + x == b + y <==> a == b && x == y
  {
    if a + x == b + y {
      assert |a| == |b|;
      assert a == (a + x)[..|a|] == b;
      assert x == (a + x)[|a|..] == y;
    }
  }

  lemma KeptExtends(was: Cache, now: Cache, service: Service, records: nat, writable: nat -> bool)
    requires Kept(was, now, was, Answering(service, records), writable)
    ensures Extends(was, now, service, records)
  {
  }

  /**
   Whatever tiles are cached, by pulls with one cap, a pull with another reads
   what it would without a cache exactly when every cached tile fits both.
   */
  lemma CacheInvisible(hits: Cache, service: Service, max: int, max2: int, count: nat)
    requires Extends(map[], hits, service, Records(max))
    ensures (var fetch := Answering(service, Records(max2));
             Concat(hits, fetch, count) == Concat(map[], fetch, count) <==>
             forall t :: 0 <= t < count && t in hits ==> Fits(service, t, Records(max), Records(max2)))
  {
    hide Fits, Answering;
    StoredTilesRead(map[], hits, service, Records(max), Records(max2), count);
  }

  /**
   After a pull that consults the cache a later pull reads what it would have
   read before it exactly when every tile newly stored fits both caps; caps that
   ask for the same number of records always do.
   */
  lemma PullAgainReadsSame(was: Cache, now: Cache, service: Service, max: int, max2: int, writable: nat -> bool, count: nat)
    requires Kept(was, now, was, Answering(service, Records(max)), writable)
    ensures (var fetch := Answering(service, Records(max2));
             Concat(now, fetch, count) == Concat(was, fetch, count) <==>
             forall t :: 0 <= t < count && t in now && t !in was ==> Fits(service, t, Records(max), Records(max2)))
    ensures Records(max) == Records(max2) ==>
              Concat(now, Answering(service, Records(max2)), count) == Concat(was, Answering(service, Records(max2)), count)
  {
    KeptExtends(was, now, service, Records(max), writable);
    hide Answering;
    StoredTilesRead(was, now, service, Records(max), Records(max2), count);
  }

  // ---------- results of pulls with different caps ----------

  ghost predicate DistinctListings(service: Service) {
    forall t: nat :: service(t).Some? ==> DistinctListing(service(t).value)
  }

  predicate DistinctListing(features: seq<Feature>) {
    forall i, j :: 0 <= i < j < |features| ==> features[i].id != features[j].id
  }

  lemma {:induction false} DistinctListingKept(features: seq<Feature>)
    requires DistinctListing(features)
    ensures Distinct(features) == features
  {
    if features != [] {
      var n := |features| - 1;
      DistinctListingKept(features[..n]);
      assert features == features[..n] + [features[n]];
    }
  }

  lemma {:induction false} DistinctCount(features: seq<Feature>)
    ensures |Distinct(features)| == |Ids(features)|
  {
    hide Ids, Distinct;
    if features == [] {
      NoFeatures();
    } else {
      var n := |features| - 1;
      DistinctCount(features[..n]);
      OneMore(features[..n], features[n]);
      assert features == features[..n] + [features[n]];
      OneIdMore(Ids(features[..n]), features[n].id);
    }
  }

  lemma OneIdMore(ids: set<Str>, id: Str)
    ensures |ids + {id}| == if id in ids then |ids| else |ids| + 1
  {
    if id in ids { assert ids + {id} == ids; }
  }

  // A stretch of distinct features reaches the cap whatever came before it.
  lemma StretchReachesCap(before: seq<Feature>, features: seq<Feature>)
    requires DistinctListing(features)
    ensures |Distinct(before + features)| >= |features|
  {
    DistinctCount(before + features);
    DistinctCount(features);
    DistinctListingKept(features);
    assert Ids(features) <= Ids(before + features);
    Sequences.SubsetSize(Ids(features), Ids(before + features));
  }

  lemma TruncatedDistinct(features: seq<Feature>, records: nat)
    requires DistinctListing(features)
    ensures DistinctListing(Truncated(features, records))
  {
  }

  // Two readings that agree until one of them has reached the cap in a tile.
  ghost predicate SameSoFar(x: seq<Feature>, y: seq<Feature>, max: int) {
    x == y || (|Distinct(x)| >= max && |Distinct(y)| >= max && Capped(Distinct(x), max) == Capped(Distinct(y), max))
  }

  lemma {:induction false} LargerReadsAlike(base: Cache, hits: Cache, service: Service, stored: nat, max: int, count: nat)
    requires Extends(base, hits, service, stored) && DistinctListings(service)
    requires stored > Records(max) == max
    ensures (var fetch := Answering(service, Records(max));
             SameSoFar(Concat(hits, fetch, count), Concat(base, fetch, count), max))
  {
    if count == 0 {
      NothingRead(hits, Answering(service, Records(max)));
      NothingRead(base, Answering(service, Records(max)));
    } else {
      hide *;
      var fetch, tile := Answering(service, Records(max)), count - 1;
      LargerReadsAlike(base, hits, service, stored, max, tile);
      ConcatTile(hits, fetch, count);
      ConcatTile(base, fetch, count);
      var a, b := Concat(hits, fetch, tile), Concat(base, fetch, tile);
      var x, y := TileFeatures(hits, fetch, tile), TileFeatures(base, fetch, tile);
      LargerTile(base, hits, service, stored, max, tile);
      SameAfterTile(a, b, x, y, max);
    }
  }

  lemma SameAfterTile(a: seq<Feature>, b: seq<Feature>, x: seq<Feature>, y: seq<Feature>, max: int)
    requires SameSoFar(a, b, max)
    requires x == y || (y <= x && |y| == max && DistinctListing(y))
    ensures SameSoFar(a + x, b + y, max)
  {
    hide Distinct, Capped, DistinctListing;
    if a != b {
      CapSettles(a, a + x, max);
      CapSettles(b, b + y, max);
    } else if x != y {
      StretchReachesCap(a, y);
      assert a + y <= a + x;
      CapSettles(a + y, a + x, max);
    }
  }

  // A tile stored for more records than are asked for now: the same, or longer than the cap.
  lemma LargerTile(base: Cache, hits: Cache, service: Service, stored: nat, max: int, tile: nat)
    requires Extends(base, hits, service, stored) && DistinctListings(service)
    requires stored > Records(max) == max
    ensures (var fetch := Answering(service, Records(max));
             var x, y := TileFeatures(hits, fetch, tile), TileFeatures(base, fetch, tile);
             x == y || (y <= x && |y| == max && DistinctListing(y)))
  {
    if tile in hits && tile !in base {
      var fs := service(tile).value;
      TruncatedDistinct(fs, max);
      assert |fs| > max ==> fs[..max] <= fs && (|fs| > stored ==> fs[..max] == fs[..stored][..max]);
    }
  }

  /**
   When no tile lists an id twice, tiles stored by a pull that asks for at least
   as many records never change another pull's result.
   */
  lemma LargerCapServes(base: Cache, hits: Cache, service: Service, max: int, max2: int, count: nat)
    requires Extends(base, hits, service, Records(max)) && DistinctListings(service)
    requires Records(max) >= Records(max2)
    ensures (var fetch := Answering(service, Records(max2));
             Capped(Distinct(Concat(hits, fetch, count)), max2) == Capped(Distinct(Concat(base, fetch, count)), max2))
  {
    hide Distinct, Concat, Answering;
    if Records(max) == Records(max2) {
      StoredTilesRead(base, hits, service, Records(max), Records(max2), count);
    } else if max2 > 0 {
      LargerReadsAlike(base, hits, service, Records(max), max2, count);
    }
  }

  // Reading further into a list changes the capped result exactly if the cap is not reached and an id is new.
  lemma ReadFurther(a: seq<Feature>, b: seq<Feature>, max: int)
    requires a <= b && max > 0
    ensures Capped(Distinct(b), max) == Capped(Distinct(a), max) <==> |Ids(a)| >= max || Ids(b) == Ids(a)
  {
    hide Ids, Distinct;
    assert b == a + b[|a|..];
    DistinctPrefix(a, b[|a|..]);
    DistinctCount(a);
    DistinctCount(b);
    DistinctIds(a);
    DistinctIds(b);
  }

  /**
   Exactly which stored tiles serve a cap that asks for fewer records: those
   whose first records already have as many ids as the cap, or all the ids the
   stored part has.
   */
  lemma LargerTileServes(service: Service, max: int, max2: int)
    requires service(0).Some? && Records(max) >= Records(max2) > 0
    ensures (var kept, asked := Truncated(service(0).value, Records(max)), Truncated(service(0).value, Records(max2));
             var fetch := Answering(service, Records(max2));
             Capped(Distinct(Concat(map[0 := kept], fetch, 1)), max2) == Capped(Distinct(Concat(map[], fetch, 1)), max2)
             <==> |Ids(asked)| >= max2 || Ids(kept) == Ids(asked))
  {
    hide Ids, Distinct, Capped, Concat;
    var kept, asked := Truncated(service(0).value, Records(max)), Truncated(service(0).value, Records(max2));
    var fetch := Answering(service, Records(max2));
    assert asked <= kept;
    OneTile(map[0 := kept], fetch, kept);
    OneTile(map[], fetch, asked);
    ReadFurther(asked, kept, max2);
  }

  /** A tile that lists an id twice and then another: stored for three records, it gives a pull of two one feature more. */
  lemma RepeatedIdServesMore(a: Feature, again: Feature, b: Feature)
    requires again.id == a.id != b.id
    ensures (var service := (_: nat) => Some([a, again, b]);
             var fetch := Answering(service, Records(2));
             && fetch(0) == Fetched([a, again]) && Answering(service, Records(3))(0) == Fetched([a, again, b])
             && Capped(Distinct(Concat(map[0 := [a, again, b]], fetch, 1)), 2) == [a, b]
             && Capped(Distinct(Concat(map[], fetch, 1)), 2) == [a])
  {
    hide Distinct, Concat;
    var service := (_: nat) => Some([a, again, b]);
    var fetch := Answering(service, Records(2));
    TwoThenOne(a, again, b);
    assert service(0) == Some([a, again, b]) && Truncated([a, again, b], 2) == [a, again];
    OneTile(map[0 := [a, again, b]], fetch, [a, again, b]);
    OneTile(map[], fetch, [a, again]);
  }

  lemma NoFeatures()
    ensures Distinct([]) == [] && Ids([]) == {}
  {
  }

  lemma TwoThenOne(a: Feature, again: Feature, b: Feature)
    requires again.id == a.id != b.id
    ensures Distinct([a, again]) == [a] && Distinct([a, again, b]) == [a, b]
  {
    hide Distinct, Ids;
    NoFeatures();
    OneMore([], a);
    OneMore([a], again);
    OneMore([a, again], b);
    assert [] + [a] == [a] && [a] + [again] == [a, again] && [a, again] + [b] == [a, again, b];
  }

  // A tile with n features of distinct ids.
  function Listing(n: nat): (fs: seq<Feature>)
    ensures |fs| == n
  {
    seq(n, i requires 0 <= i => Feature(seq(i, _ => 0x61), []))
  }

  // A service that holds n such features on every tile.
  function Alike(n: nat): Service {
    (_: nat) => Some(Listing(n))
  }

  lemma ListingDistinct(n: nat, k: nat)
    requires k <= n
    ensures DistinctListing(Listing(n)) && Distinct(Listing(n)[..k]) == Listing(n)[..k]
  {
    var fs := Listing(n);
    forall i, j | 0 <= i < j < n ensures fs[i].id != fs[j].id {
      assert |fs[i].id| == i && |fs[j].id| == j;
    }
    DistinctListingKept(fs[..k]);
  }

  /**
   And a smaller one does: after a pull that asks for fewer records, a pull over
   one long enough tile gets only what was stored, though the service has more.
   */
  lemma SmallerCapStarves(max: int, max2: int, now: Cache, writable: nat -> bool)
    requires 0 < Records(max) < Records(max2)
    requires (var fetch := Answering(Alike(Records(max2)), Records(max));
              Kept(map[], now, map[], fetch, writable) && 0 in now)
    ensures (var fetch := Answering(Alike(Records(max2)), Records(max2));
             && |Capped(Distinct(Concat(now, fetch, 1)), max2)| == Records(max)
             && |Capped(Distinct(Concat(map[], fetch, 1)), max2)| == Records(max2))
  {
    hide *;
    var n, k := Records(max2), Records(max);
    var fetch := Answering(Alike(n), n);
    AlikeAnswers(n, k);
    AlikeAnswers(n, n);
    StoredIsAnswer(now, Answering(Alike(n), k), writable);
    OneTile(now, fetch, Listing(n)[..k]);
    OneTile(map[], fetch, Listing(n)[..n]);
    ListingDistinct(n, k);
    ListingDistinct(n, n);
    AllCapped(Listing(n)[..k], max2);
    AllCapped(Listing(n)[..n], max2);
  }

  lemma StoredIsAnswer(now: Cache, fetch: Answers, writable: nat -> bool)
    requires Kept(map[], now, map[], fetch, writable) && 0 in now
    ensures fetch(0) == Fetched(now[0])
  {
  }

  lemma AllCapped(features: seq<Feature>, max: int)
    requires |features| <= Records(max)
    ensures Capped(features, max) == features
  {
  }

  lemma AlikeAnswers(n: nat, k: nat)
    requires k <= n
    ensures Answering(Alike(n), k)(0) == Fetched(Listing(n)[..k])
  {
    hide Listing;
    assert Alike(n)(0) == Some(Listing(n));
    assert Truncated(Listing(n), k) == Listing(n)[..k];
  }

  lemma OneTile(hits: Cache, fetch: Answers, features: seq<Feature>)
    requires (if 0 in hits then Fetched(hits[0]) else fetch(0)) == Fetched(features)
    ensures Concat(hits, fetch, 1) == features
  {
    assert Concat(hits, fetch, 0) == [];
  }

  /** A pull fails only on a tile it has to fetch: one that is not cached, and that the service cannot give. */
  lemma {:induction false} FailureNeedsUnreachable(hits: Cache, fetch: Answers, count: nat, max: int, tile: nat)
    requires tile <= count && Fails(hits, fetch, count, max, tile)
    ensures exists t :: tile <= t < count && t !in hits && fetch(t).Unreachable?
    decreases count - tile
  {
    var end := BatchEnd(hits, tile, count, 0);
    if Blocked(hits, fetch, tile, end) {
      var t :| tile <= t < end && Source(hits, fetch, t).Unreachable?;
      assert t !in hits && fetch(t).Unreachable?;
    } else {
      FailureNeedsUnreachable(hits, fetch, count, max, end);
    }
  }

  /** An unreachable tile before the cap is reached always fails the pull: no partial result. */
  lemma {:induction false} NeededTileFails(hits: Cache, fetch: Answers, count: nat, max: int, tile: nat, t: nat)
    requires tile <= t < count && Source(hits, fetch, t).Unreachable?
    requires |Distinct(Concat(hits, fetch, t))| < max
    ensures Fails(hits, fetch, count, max, tile)
    decreases count - tile
  {
    ConcatPrefix(hits, fetch, tile, t);
    if |Distinct(Concat(hits, fetch, tile))| >= max {
      CapSettles(Concat(hits, fetch, tile), Concat(hits, fetch, t), max);
    }
    var end := BatchEnd(hits, tile, count, 0);
    if t >= end {
      NeededTileFails(hits, fetch, count, max, end, t);
    }
  }
}
