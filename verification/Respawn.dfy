/**
 The tool adapter's child process: one live handle, one shared spawn, and at most
 three spawn attempts in any 30 seconds.

 The state is that of the module's variables plus the spawns in flight and what
 the promises of finished spawns resolved to. A spawn sleeps, connects, and then
 assigns its handle; a handle may die at any point after it connected, even
 before it is assigned, and then the callers that awaited the spawn get it dead.
 */
module Respawn {
  import opened Options

  const WINDOW := 30_000
  const MAX_ATTEMPTS := 3
  const BACKOFF := [0, 1_000, 2_000, 4_000]

  type Handle = nat
  type Task = nat

  datatype Phase = Sleeping(ms: int) | Connecting | Connected(handle: Handle)

  // What a spawn's promise resolves to for everyone who awaits it.
  datatype Promise = Delivered(handle: Handle) | Rejected

  datatype State = State(
    live: Option<Handle>,
    dead: set<Handle>,
    initPromise: Option<Task>,
    history: seq<int>,
    tasks: map<Task, Phase>,
    settled: map<Task, Promise>,
    handles: nat,
    started: nat)

  const START := State(None, {}, None, [], map[], map[], 0, 0)

  // What a caller gets: the live handle, the promise of a spawn, or an error.
  datatype Reply = Ready(handle: Handle) | Awaiting(task: Task) | Limited

  datatype Event =
    | Call(now: int)
    | Wakes(task: Task)
    | Connects(task: Task)
    | Assigns(task: Task)
    | Fails(task: Task)
    | Dies(handle: Handle)

  // The attempts left after those older than the window are shifted out.
  function Trimmed(history: seq<int>, now: int): (r: seq<int>)
    ensures |r| <= |history|
  {
    if history != [] && history[0] < now - WINDOW then Trimmed(history[1..], now) else history
  }

  function Min(a: int, b: int): int {
    if a < b then a else b
  }

  // The wait before a spawn, by how many attempts the window holds with this one.
  function Delay(attempts: nat): int
    requires attempts >= 1
  {
    BACKOFF[Min(attempts - 1, |BACKOFF| - 1)]
  }

  function FirstPhase(ms: int): Phase {
    if ms > 0 then Sleeping(ms) else Connecting
  }

  function Called(s: State, now: int): (State, Reply) {
    if s.live.Some? && s.live.value !in s.dead then (s, Ready(s.live.value))
    else if s.initPromise.Some? then (s, Awaiting(s.initPromise.value))
    else
      var recent := Trimmed(s.history, now);
      if |recent| >= MAX_ATTEMPTS then (s.(history := recent), Limited)
      else
        var history := recent + [now];
        (s.(history := history, initPromise := Some(s.started), started := s.started + 1,
            tasks := s.tasks[s.started := FirstPhase(Delay(|history|))]), Awaiting(s.started))
  }

  predicate Enabled(s: State, e: Event) {
    match e
    case Call(_) => true
    case Wakes(t) => t in s.tasks && s.tasks[t].Sleeping?
    case Connects(t) => t in s.tasks && s.tasks[t].Connecting?
    case Assigns(t) => t in s.tasks && s.tasks[t].Connected?
    case Fails(t) => t in s.tasks && s.tasks[t].Connecting?
    case Dies(h) => h < s.handles
  }

  function Step(s: State, e: Event): State
    requires Enabled(s, e)
  {
    match e
    case Call(now) => Called(s, now).0
    case Wakes(t) => s.(tasks := s.tasks[t := Connecting])
    case Connects(t) => s.(tasks := s.tasks[t := Connected(s.handles)], handles := s.handles + 1)
    case Assigns(t) =>
      s.(live := Some(s.tasks[t].handle), initPromise := None, tasks := s.tasks - {t},
         settled := s.settled[t := Delivered(s.tasks[t].handle)])
    case Fails(t) => s.(initPromise := None, tasks := s.tasks - {t}, settled := s.settled[t := Rejected])
    case Dies(h) => s.(dead := s.dead + {h}, live := if s.live == Some(h) then None else s.live)
  }

  // ---------- runs ----------

  predicate Possible(events: seq<Event>)
    decreases |events|, 0
  {
    events == [] ||
    (Possible(events[..|events| - 1]) && Enabled(After(events[..|events| - 1]), events[|events| - 1]))
  }

  function After(events: seq<Event>): State
    requires Possible(events)
    decreases |events|, 1
  {
    if events == [] then START else Step(After(events[..|events| - 1]), events[|events| - 1])
  }

  lemma Happens(events: seq<Event>, e: Event)
    requires Possible(events) && Enabled(After(events), e)
    ensures Possible(events + [e]) && After(events + [e]) == Step(After(events), e)
  {
    assert (events + [e])[..|events|] == events;
  }

  class McpClient {
    var live: Option<Handle>
    var dead: set<Handle>
    var initPromise: Option<Task>
    var respawnHistory: seq<int>
    var tasks: map<Task, Phase>
    var settled: map<Task, Promise>
    var handles: nat
    var started: nat
    ghost var log: seq<Event>  // everything that has happened

    function Now(): State
      reads this
    {
      State(live, dead, initPromise, respawnHistory, tasks, settled, handles, started)
    }

    ghost predicate Valid()
      reads this
    {
      Possible(log) && Now() == After(log)
    }

    constructor ()
      ensures Valid() && log == []
    {
      live, dead, initPromise, respawnHistory, tasks, handles, started := None, {}, None, [], map[], 0, 0;
      settled, log := map[], [];
    }

    method RecordRespawn(now: int) returns (ok: bool)
      modifies this`respawnHistory
      ensures ok == (|Trimmed(old(respawnHistory), now)| < MAX_ATTEMPTS)
      ensures (var recent := Trimmed(old(respawnHistory), now);
               respawnHistory == if ok then recent + [now] else recent)
    {
      while |respawnHistory| > 0 && respawnHistory[0] < now - WINDOW
        invariant Trimmed(respawnHistory, now) == Trimmed(old(respawnHistory), now)
        decreases |respawnHistory|
      {
        respawnHistory := respawnHistory[1..];
      }
      if |respawnHistory| >= MAX_ATTEMPTS {
        return false;
      }
      respawnHistory := respawnHistory + [now];
      return true;
    }

    method GetLive(now: int) returns (reply: Reply)
      requires Valid()
      modifies this
      ensures Valid() && log == old(log) + [Call(now)]
      ensures reply == Called(After(old(log)), now).1
    {
      hide Trimmed, After, Possible;
      Happens(log, Call(now));
      log := log + [Call(now)];
      if live.Some? && live.value !in dead { return Ready(live.value); }
      if initPromise.Some? { return Awaiting(initPromise.value); }
      var ok := RecordRespawn(now);
      if !ok { return Limited; }
      var attemptIndex := Min(|respawnHistory| - 1, |BACKOFF| - 1);
      var backoff := BACKOFF[attemptIndex];
      initPromise := Some(started);
      tasks := tasks[started := FirstPhase(backoff)];
      started := started + 1;
      return Awaiting(started - 1);
    }

    // The steps of a spawn: its sleep ends, its transport connects, its handle is assigned, or it fails.
    method Wake(task: Task)
      requires Valid() && Enabled(Now(), Wakes(task))
      modifies this`tasks, this`log
      ensures Valid() && log == old(log) + [Wakes(task)]
    {
      hide After, Possible;
      Happens(log, Wakes(task));
      tasks := tasks[task := Connecting];
      log := log + [Wakes(task)];
    }

    method Connect(task: Task) returns (handle: Handle)
      requires Valid() && Enabled(Now(), Connects(task))
      modifies this`tasks, this`handles, this`log
      ensures Valid() && log == old(log) + [Connects(task)]
      ensures handle == old(handles) && tasks[task] == Connected(handle)
    {
      hide After, Possible;
      Happens(log, Connects(task));
      handle := handles;
      tasks := tasks[task := Connected(handle)];
      handles := handles + 1;
      log := log + [Connects(task)];
    }

    method Assign(task: Task) returns (handle: Handle)
      requires Valid() && Enabled(Now(), Assigns(task))
      modifies this`live, this`initPromise, this`tasks, this`settled, this`log
      ensures Valid() && log == old(log) + [Assigns(task)]
      ensures settled == old(settled)[task := Delivered(handle)]
    {
      hide After, Possible;
      Happens(log, Assigns(task));
      handle := tasks[task].handle;
      live := Some(handle);
      initPromise := None;
      tasks := tasks - {task};
      settled := settled[task := Delivered(handle)];
      log := log + [Assigns(task)];
    }

    method Fail(task: Task)
      requires Valid() && Enabled(Now(), Fails(task))
      modifies this`initPromise, this`tasks, this`settled, this`log
      ensures Valid() && log == old(log) + [Fails(task)]
    {
      hide After, Possible;
      Happens(log, Fails(task));
      initPromise := None;
      tasks := tasks - {task};
      settled := settled[task := Rejected];
      log := log + [Fails(task)];
    }

    method MarkDead(handle: Handle)
      requires Valid() && Enabled(Now(), Dies(handle))
      modifies this`dead, this`live, this`log
      ensures Valid() && log == old(log) + [Dies(handle)]
    {
      hide After, Possible;
      Happens(log, Dies(handle));
      dead := dead + {handle};
      if live == Some(handle) {
        live := None;
      }
      log := log + [Dies(handle)];
    }
  }

  ghost predicate Clocked(events: seq<Event>) {
    forall i, j :: 0 <= i < j < |events| && events[i].Call? && events[j].Call? ==> events[i].now <= events[j].now
  }

  // Whether the call starts a spawn.
  predicate Starts(s: State, e: Event) {
    e.Call? && Called(s, e.now).0.started > s.started
  }

  // When the spawns of a run were started.
  function Attempts(events: seq<Event>): seq<int>
    requires Possible(events)
  {
    if events == [] then []
    else
      var n := |events| - 1;
      var before := Attempts(events[..n]);
      if Starts(After(events[..n]), events[n]) then before + [events[n].now] else before
  }

  // ---------- one spawn at a time ----------

  /**
   However callers, spawns and deaths interleave, at most one spawn is in
   flight, and a promise handed out is that spawn's.
   */
  lemma {:induction false} OneSpawnInFlight(events: seq<Event>)
    requires Possible(events)
    ensures (var s := After(events);
             && |s.tasks| <= 1
             && s.tasks.Keys == (if s.initPromise.Some? then {s.initPromise.value} else {}))
  {
    if events != [] {
      OneSpawnInFlight(events[..|events| - 1]);
      var s := After(events);
      assert s.tasks.Keys == if s.initPromise.Some? then {s.initPromise.value} else {};
      assert |s.tasks| == |s.tasks.Keys|;
    }
  }

  // ---------- the attempt limit ----------

  ghost predicate Ascending(attempts: seq<int>) {
    forall i, j :: 0 <= i < j < |attempts| ==> attempts[i] <= attempts[j]
  }

  ghost predicate Spaced(attempts: seq<int>) {
    forall i :: 0 <= i < |attempts| - MAX_ATTEMPTS ==> attempts[i] + WINDOW < attempts[i + MAX_ATTEMPTS]
  }

  // The history is the tail of the attempts, and what it dropped is too old to count again.
  ghost predicate Remembers(history: seq<int>, attempts: seq<int>) {
    var cut := |attempts| - |history|;
    && |history| <= MAX_ATTEMPTS && 0 <= cut && history == attempts[cut..]
    && (cut > 0 ==> attempts[cut - 1] + WINDOW < attempts[|attempts| - 1])
  }

  // Attempts in the closed interval [from, from + WINDOW].
  function CountIn(attempts: seq<int>, from: int): nat {
    if attempts == [] then 0
    else
      var n := |attempts| - 1;
      CountIn(attempts[..n], from) + if from <= attempts[n] <= from + WINDOW then 1 else 0
  }

  lemma {:induction false} NoneIn(attempts: seq<int>, from: int)
    requires forall i :: 0 <= i < |attempts| ==> attempts[i] < from
    ensures CountIn(attempts, from) == 0
  {
    if attempts != [] { NoneIn(attempts[..|attempts| - 1], from); }
  }

  lemma {:induction false} CountTail(attempts: seq<int>, cut: nat, from: int)
    requires cut <= |attempts|
    requires forall i :: 0 <= i < cut ==> attempts[i] < from
    requires forall i :: cut <= i < |attempts| ==> from <= attempts[i] <= from + WINDOW
    ensures CountIn(attempts, from) == |attempts| - cut
  {
    if cut == |attempts| {
      NoneIn(attempts, from);
    } else {
      CountTail(attempts[..|attempts| - 1], cut, from);
    }
  }

  lemma DropDrop(s: seq<int>, i: nat, j: nat)
    requires i + j <= |s|
    ensures s[i..][j..] == s[i + j..]
  {
  }

  // Shifting stops at the first attempt young enough.
  lemma {:induction false} TrimmedIs(history: seq<int>, now: int)
    ensures (var r, k := Trimmed(history, now), |history| - |Trimmed(history, now)|;
             && r == history[k..]
             && (r != [] ==> history[k] >= now - WINDOW)
             && (k > 0 ==> history[k - 1] < now - WINDOW))
  {
    if history != [] && history[0] < now - WINDOW {
      TrimmedIs(history[1..], now);
      DropDrop(history, 1, |history| - 1 - |Trimmed(history[1..], now)|);
    }
  }

  // The attempts from cut on are those of the last window.
  ghost predicate RecentFrom(attempts: seq<int>, cut: nat, now: int) {
    && cut <= |attempts|
    && (forall i :: 0 <= i < cut ==> attempts[i] < now - WINDOW)
    && (forall i :: cut <= i < |attempts| ==> now - WINDOW <= attempts[i] <= now)
  }

  // Where the trimmed history starts in the attempts.
  lemma TrimmedAt(history: seq<int>, attempts: seq<int>, now: int) returns (cut: nat)
    requires Ascending(attempts) && Remembers(history, attempts)
    requires attempts != [] ==> attempts[|attempts| - 1] <= now
    ensures RecentFrom(attempts, cut, now) && Trimmed(history, now) == attempts[cut..]
  {
    hide Trimmed, Ascending;
    var recent, start := Trimmed(history, now), |attempts| - |history|;
    cut := |attempts| - |recent|;
    TrimmedIs(history, now);
    DropDrop(attempts, start, cut - start);
    assert recent != [] ==> history[cut - start] == attempts[cut];
    assert cut > start ==> history[cut - start - 1] == attempts[cut - 1];
    SplitsAt(attempts, cut, now);
  }

  // In ascending times, one comparison on each side of a position decides the rest.
  lemma SplitsAt(attempts: seq<int>, cut: nat, now: int)
    requires Ascending(attempts) && cut <= |attempts|
    requires cut > 0 ==> attempts[cut - 1] < now - WINDOW
    requires cut < |attempts| ==> attempts[cut] >= now - WINDOW
    requires attempts != [] ==> attempts[|attempts| - 1] <= now
    ensures RecentFrom(attempts, cut, now)
  {
  }

  // What a call finds in the trimmed history is how many attempts the last window holds.
  lemma TrimmedIsRecent(history: seq<int>, attempts: seq<int>, now: int)
    requires Ascending(attempts) && Remembers(history, attempts)
    requires attempts != [] ==> attempts[|attempts| - 1] <= now
    ensures |Trimmed(history, now)| == CountIn(attempts, now - WINDOW)
  {
    var cut := TrimmedAt(history, attempts, now);
    CountTail(attempts, cut, now - WINDOW);
  }

  lemma AttemptKeeps(history: seq<int>, attempts: seq<int>, now: int)
    requires Ascending(attempts) && Spaced(attempts) && Remembers(history, attempts)
    requires attempts != [] ==> attempts[|attempts| - 1] <= now
    ensures (var recent, more := Trimmed(history, now), attempts + [now];
             if |recent| < MAX_ATTEMPTS then Ascending(more) && Spaced(more) && Remembers(recent + [now], more)
             else recent == history)
  {
    hide Trimmed, Ascending, Spaced;
    var recent := Trimmed(history, now);
    var cut := TrimmedAt(history, attempts, now);
    if |recent| < MAX_ATTEMPTS {
      StillSpaced(attempts, now, cut);
      StillRemembered(attempts, now, cut);
    } else {
      TrimmedIs(history, now);
      assert recent == history[0..] == history;
    }
  }

  lemma StillSpaced(attempts: seq<int>, now: int, cut: nat)
    requires Ascending(attempts) && Spaced(attempts)
    requires attempts != [] ==> attempts[|attempts| - 1] <= now
    requires |attempts| - MAX_ATTEMPTS < cut <= |attempts|
    requires forall i :: 0 <= i < cut ==> attempts[i] < now - WINDOW
    ensures Ascending(attempts + [now]) && Spaced(attempts + [now])
  {
  }

  lemma StillRemembered(attempts: seq<int>, now: int, cut: nat)
    requires |attempts| - MAX_ATTEMPTS < cut <= |attempts|
    requires cut > 0 ==> attempts[cut - 1] < now - WINDOW
    ensures Remembers(attempts[cut..] + [now], attempts + [now])
  {
  }

  lemma NothingRemembered()
    ensures Ascending([]) && Spaced([]) && Remembers([], [])
  {
  }

  // Only a call touches the history, and it starts a spawn or drops nothing it could keep.
  lemma StepHistory(s: State, e: Event)
    requires Enabled(s, e)
    ensures (var next := Step(s, e).history;
             if Starts(s, e) then
               |Trimmed(s.history, e.now)| < MAX_ATTEMPTS && next == Trimmed(s.history, e.now) + [e.now]
             else
               || next == s.history
               || (e.Call? && |Trimmed(s.history, e.now)| >= MAX_ATTEMPTS && next == Trimmed(s.history, e.now)))
  {
    hide Trimmed;
  }

  lemma {:induction false} RunRemembers(events: seq<Event>)
    requires Possible(events) && Clocked(events)
    ensures (var attempts := Attempts(events);
             && Ascending(attempts) && Spaced(attempts)
             && Remembers(After(events).history, attempts)
             && (attempts != [] ==> exists i :: 0 <= i < |events| && events[i] == Call(attempts[|attempts| - 1])))
  {
    hide Trimmed, Ascending, Spaced, Remembers, Called, Step;
    if events == [] {
      NothingRemembered();
    } else {
      var n := |events| - 1;
      var before, e := events[..n], events[n];
      RunRemembers(before);
      StepHistory(After(before), e);
      if e.Call? {
        AttemptKeeps(After(before).history, Attempts(before), e.now);
      }
    }
  }

  lemma CallsAfterAttempts(events: seq<Event>, now: int)
    requires Possible(events) && Clocked(events + [Call(now)])
    ensures (var attempts := Attempts(events);
             && Clocked(events)
             && Ascending(attempts) && Spaced(attempts)
             && Remembers(After(events).history, attempts)
             && (attempts != [] ==> attempts[|attempts| - 1] <= now))
  {
    var run := events + [Call(now)];
    assert forall i :: 0 <= i < |events| ==> run[i] == events[i];
    assert run[|events|] == Call(now);
    RunRemembers(events);
  }

  /** Any closed 30-second interval of any run holds at most three attempts. */
  lemma AttemptsLimited(events: seq<Event>, from: int)
    requires Possible(events) && Clocked(events)
    ensures CountIn(Attempts(events), from) <= MAX_ATTEMPTS
  {
    RunRemembers(events);
    SpacedCount(Attempts(events), from);
  }

  lemma {:induction false} CountPrefix(attempts: seq<int>, k: nat, from: int)
    requires k <= |attempts|
    ensures CountIn(attempts, from) <= CountIn(attempts[..k], from) + |attempts| - k
  {
    var n := |attempts|;
    if k < n {
      CountPrefix(attempts[..n - 1], k, from);
      assert attempts[..n - 1][..k] == attempts[..k];
    } else {
      assert attempts[..k] == attempts;
    }
  }

  lemma {:induction false} SpacedCount(attempts: seq<int>, from: int)
    requires Ascending(attempts) && Spaced(attempts)
    ensures CountIn(attempts, from) <= MAX_ATTEMPTS
  {
    var n := |attempts|;
    if n > 0 {
      SpacedCount(attempts[..n - 1], from);
      if n <= 3 {
        CountPrefix(attempts, 0, from);
      } else if from <= attempts[n - 1] <= from + WINDOW {
        assert attempts[n - 4] < from;
        NoneIn(attempts[..n - 3], from);
        CountPrefix(attempts, n - 3, from);
      }
    }
  }

  lemma CallLimited(s: State, now: int)
    ensures Called(s, now).1.Limited? <==>
            && (s.live.Some? ==> s.live.value in s.dead) && s.initPromise.None?
            && |Trimmed(s.history, now)| >= MAX_ATTEMPTS
    ensures Called(s, now).1.Limited? ==> Called(s, now).0 == s.(history := Trimmed(s.history, now))
  {
  }

  /**
   A caller is refused exactly when nothing is live or coming and three attempts
   lie in the last 30 seconds; a refusal changes no state.
   */
  lemma RefusedExactlyAtLimit(events: seq<Event>, now: int)
    requires Possible(events) && Clocked(events + [Call(now)])
    ensures (var s := After(events);
             && (Called(s, now).1.Limited? <==>
                 && (s.live.Some? ==> s.live.value in s.dead)
                 && s.initPromise.None?
                 && CountIn(Attempts(events), now - WINDOW) == MAX_ATTEMPTS)
             && (Called(s, now).1.Limited? ==> Called(s, now).0 == s))
  {
    hide *;
    CallsAfterAttempts(events, now);
    CallLimited(After(events), now);
    AttemptKeeps(After(events).history, Attempts(events), now);
    TrimmedIsRecent(After(events).history, Attempts(events), now);
    AttemptsLimited(events, now - WINDOW);
  }

  lemma SpawnStarted(s: State, now: int)
    requires Starts(s, Call(now))
    ensures (var next, k := Called(s, now).0, |Trimmed(s.history, now)|;
             && k < MAX_ATTEMPTS
             && next.initPromise.Some? && next.initPromise.value in next.tasks
             && next.tasks[next.initPromise.value] == [Connecting, Sleeping(1_000), Sleeping(2_000)][k])
  {
  }

  /**
   A spawn waits 0, 1 or 2 seconds, by how many earlier attempts the last 30
   seconds hold; the table's fourth entry is never reached.
   */
  lemma DelayByRecentAttempts(events: seq<Event>, now: int)
    requires Possible(events) && Clocked(events + [Call(now)])
    requires Starts(After(events), Call(now))
    ensures (var s, k := Called(After(events), now).0, CountIn(Attempts(events), now - WINDOW);
             && k < MAX_ATTEMPTS
             && s.initPromise.Some? && s.initPromise.value in s.tasks
             && s.tasks[s.initPromise.value] == [Connecting, Sleeping(1_000), Sleeping(2_000)][k])
  {
    hide *;
    CallsAfterAttempts(events, now);
    TrimmedIsRecent(After(events).history, Attempts(events), now);
    SpawnStarted(After(events), now);
  }

  // ---------- handles ----------

  // Event i connected a spawn and made handle h.
  ghost predicate MakesHandle(events: seq<Event>, i: nat, h: Handle)
    requires Possible(events)
  {
    && i < |events| && events[i].Connects?
    && (PrefixPossible(events, i); After(events[..i]).handles == h)
  }

  lemma {:induction false} PrefixPossible(events: seq<Event>, k: nat)
    requires Possible(events) && k <= |events|
    ensures Possible(events[..k])
  {
    if k == |events| {
      assert events[..k] == events;
    } else {
      PrefixPossible(events[..|events| - 1], k);
      assert events[..|events| - 1][..k] == events[..k];
    }
  }

  lemma StepHandles(s: State, e: Event)
    requires Enabled(s, e)
    ensures Step(s, e).handles == s.handles + if e.Connects? then 1 else 0
  {
    hide Trimmed, Delay;
  }

  lemma {:induction false} HandlesMade(events: seq<Event>, h: Handle) returns (i: nat)
    requires Possible(events) && h < After(events).handles
    ensures MakesHandle(events, i, h)
  {
    hide Step, Enabled;
    var n := |events| - 1;
    var before := events[..n];
    PrefixPossible(events, n);
    StepHandles(After(before), events[n]);
    if h < After(before).handles {
      i := HandlesMade(before, h);
      PrefixPossible(before, i);
      PrefixPossible(events, i);
      assert before[..i] == events[..i];
    } else {
      i := n;
    }
  }

  /** Only a handle that some spawn connected can die. */
  lemma DiesAfterConnect(events: seq<Event>, j: nat) returns (i: nat)
    requires Possible(events) && j < |events| && events[j].Dies?
    ensures i < j && MakesHandle(events, i, events[j].handle)
  {
    hide Step;
    PrefixPossible(events, j);
    PrefixPossible(events, j + 1);
    assert events[..j + 1][..j] == events[..j];
    i := HandlesMade(events[..j], events[j].handle);
    PrefixPossible(events, i);
    assert events[..j][..i] == events[..i];
  }

  // ---------- who gets a dead handle ----------

  lemma {:induction false} DeathsRecorded(events: seq<Event>, handle: Handle)
    requires Possible(events)
    ensures handle in After(events).dead <==> Dies(handle) in events
  {
    if events != [] {
      hide Step, Enabled;
      var n := |events| - 1;
      assert events == events[..n] + [events[n]];
      DeathsRecorded(events[..n], handle);
      StepDeaths(After(events[..n]), events[n], handle);
    }
  }

  lemma StepDeaths(s: State, e: Event, handle: Handle)
    requires Enabled(s, e)
    ensures handle in Step(s, e).dead <==> handle in s.dead || e == Dies(handle)
  {
    hide Trimmed, Delay;
  }

  /** A caller answered at once never gets a handle that has died. */
  lemma ReadyIsAlive(events: seq<Event>, now: int)
    requires Possible(events)
    ensures (var r := Called(After(events), now).1; r.Ready? ==> Dies(r.handle) !in events)
  {
    var r := Called(After(events), now).1;
    if r.Ready? { DeathsRecorded(events, r.handle); }
  }

  // ---------- who is served ----------

  // Event j assigned handle h, and neither another assignment nor the handle's death came after it.
  ghost predicate AssignedLast(events: seq<Event>, j: nat, h: Handle)
    requires Possible(events)
  {
    && j < |events| && events[j].Assigns?
    && (PrefixPossible(events, j);
        var s := After(events[..j]);
        events[j].task in s.tasks && s.tasks[events[j].task] == Connected(h))
    && (forall i :: j < i < |events| ==> !events[i].Assigns? && events[i] != Dies(h))
  }

  // The last handle to be assigned has not died, before or after.
  ghost predicate Serving(events: seq<Event>, h: Handle)
    requires Possible(events)
  {
    Dies(h) !in events && exists j: nat :: AssignedLast(events, j, h)
  }

  lemma StepLive(s: State, e: Event)
    requires Enabled(s, e)
    ensures Step(s, e).live ==
            match e
            case Assigns(t) => Some(s.tasks[t].handle)
            case Dies(h) => if s.live == Some(h) then None else s.live
            case _ => s.live
  {
    hide Trimmed, Delay;
  }

  // Whether the last event assigns handle h.
  ghost predicate Assigned(s: State, e: Event, h: Handle) {
    e.Assigns? && e.task in s.tasks && s.tasks[e.task] == Connected(h)
  }

  lemma AssignedEarlier(events: seq<Event>, j: nat, h: Handle)
    requires Possible(events) && j + 1 < |events| && Possible(events[..|events| - 1])
    ensures (var n := |events| - 1;
             AssignedLast(events, j, h) <==>
               AssignedLast(events[..n], j, h) && !events[n].Assigns? && events[n] != Dies(h))
  {
    hide After, Enabled, Step, Possible;
    var n := |events| - 1;
    PrefixPossible(events, j);
    PrefixPossible(events[..n], j);
    assert events[..n][..j] == events[..j];
    assert forall i :: 0 <= i < n ==> events[..n][i] == events[i];
  }

  lemma AssignedNow(events: seq<Event>, h: Handle)
    requires Possible(events) && events != [] && Possible(events[..|events| - 1])
    ensures (var n := |events| - 1; AssignedLast(events, n, h) <==> Assigned(After(events[..n]), events[n], h))
  {
    hide After, Enabled, Step, Possible;
    PrefixPossible(events, |events| - 1);
  }

  lemma {:induction false} LiveIsLastAssigned(events: seq<Event>, h: Handle)
    requires Possible(events)
    ensures After(events).live == Some(h) <==> exists j: nat :: AssignedLast(events, j, h)
  {
    if events != [] {
      hide AssignedLast, Step;
      var n := |events| - 1;
      LiveIsLastAssigned(events[..n], h);
      StepLive(After(events[..n]), events[n]);
      AssignedNow(events, h);
      forall j: nat | j < n
        ensures AssignedLast(events, j, h) <==>
                AssignedLast(events[..n], j, h) && !events[n].Assigns? && events[n] != Dies(h)
      {
        AssignedEarlier(events, j, h);
      }
      forall j: nat | AssignedLast(events, j, h) ensures j <= n { BeforeEnd(events, j, h); }
      forall j: nat | AssignedLast(events[..n], j, h) ensures j < n { BeforeEnd(events[..n], j, h); }
    }
  }

  lemma BeforeEnd(events: seq<Event>, j: nat, h: Handle)
    requires Possible(events) && AssignedLast(events, j, h)
    ensures j < |events|
  {
  }

  lemma CalledWhen(s: State, now: int)
    ensures (var (next, reply) := Called(s, now);
             && (reply.Ready? <==> s.live.Some? && s.live.value !in s.dead)
             && (reply.Ready? ==> reply.handle == s.live.value && next == s)
             && (!reply.Ready? && s.initPromise.Some? ==> reply == Awaiting(s.initPromise.value) && next == s)
             && (Starts(s, Call(now)) <==> !reply.Ready? && s.initPromise.None? && |Trimmed(s.history, now)| < MAX_ATTEMPTS))
  {
    hide Trimmed, Delay;
  }

  /**
   A call is answered with a handle if and only if that handle was the last to be
   assigned and has not died, and then nothing changes; otherwise it is given the
   spawn in flight if there is one, and starts one if and only if fewer than three
   attempts lie in the last 30 seconds.
   */
  lemma CallIsServed(events: seq<Event>, now: int)
    requires Possible(events) && Clocked(events + [Call(now)])
    ensures (var s := After(events); var (next, reply) := Called(s, now);
             && (forall h :: reply == Ready(h) <==> Serving(events, h))
             && (reply.Ready? ==> next == s)
             && (!reply.Ready? && s.tasks.Keys != {} ==> reply.Awaiting? && s.tasks.Keys == {reply.task} && next == s)
             && (Starts(s, Call(now)) <==>
                   && (forall h :: !Serving(events, h))
                   && s.tasks.Keys == {}
                   && CountIn(Attempts(events), now - WINDOW) < MAX_ATTEMPTS))
  {
    hide *;
    var s := After(events);
    CallsAfterAttempts(events, now);
    TrimmedIsRecent(s.history, Attempts(events), now);
    CalledWhen(s, now);
    OneSpawnInFlight(events);
    forall h ensures Called(s, now).1 == Ready(h) <==> Serving(events, h) {
      LiveIsLastAssigned(events, h);
      DeathsRecorded(events, h);
      ServingIs(events, h);
    }
  }

  lemma ServingIs(events: seq<Event>, h: Handle)
    requires Possible(events)
    ensures Serving(events, h) <==> Dies(h) !in events && exists j: nat :: AssignedLast(events, j, h)
  {
  }

  // A spawn is in flight or settled, never both, and its number is used once.
  ghost predicate Known(s: State) {
    && (forall t :: t in s.tasks ==> t < s.started && t !in s.settled)
    && (forall t :: t in s.settled ==> t < s.started)
  }

  lemma StepKnown(s: State, e: Event)
    requires Enabled(s, e) && Known(s)
    ensures Known(Step(s, e))
  {
    hide Trimmed, Delay;
  }

  lemma {:induction false} SpawnsKnown(events: seq<Event>)
    requires Possible(events)
    ensures Known(After(events))
  {
    hide Known, Step;
    if events == [] {
      assert Known(START) by { KnownAtStart(); }
    } else {
      SpawnsKnown(events[..|events| - 1]);
      StepKnown(After(events[..|events| - 1]), events[|events| - 1]);
    }
  }

  lemma KnownAtStart()
    ensures Known(START)
  {
  }

  // Until it settles a spawn stays in flight; after that its promise never changes.
  lemma SpawnStep(s: State, e: Event, t: Task)
    requires Enabled(s, e) && Known(s)
    ensures t in s.settled ==> t in Step(s, e).settled && Step(s, e).settled[t] == s.settled[t]
    ensures t in s.tasks && t !in Step(s, e).tasks ==>
              && e in {Assigns(t), Fails(t)} && t in Step(s, e).settled
              && Step(s, e).settled[t] == if e == Assigns(t) then Delivered(s.tasks[t].handle) else Rejected
  {
    hide Trimmed, Delay;
  }

  // The promise of spawn t that the call at event k was answered with.
  ghost predicate AwaitsAt(events: seq<Event>, k: nat, t: Task)
    requires Possible(events) && k < |events|
  {
    PrefixPossible(events, k);
    events[k].Call? && Called(After(events[..k]), events[k].now).1 == Awaiting(t)
  }

  // What the promise of spawn t was settled to by event j.
  ghost predicate SettledBy(events: seq<Event>, j: nat, t: Task)
    requires Possible(events) && j < |events|
  {
    PrefixPossible(events, j);
    var s := After(events[..j]);
    && t in After(events).settled
    && match After(events).settled[t]
       case Rejected => events[j] == Fails(t)
       case Delivered(handle) => events[j] == Assigns(t) && t in s.tasks && s.tasks[t] == Connected(handle)
  }

  lemma {:induction false} AwaitedSettles(events: seq<Event>, k: nat, t: Task) returns (j: nat)
    requires Possible(events) && k < |events| && AwaitsAt(events, k, t)
    ensures t in After(events).tasks || (k < j < |events| && SettledBy(events, j, t))
  {
    hide Called, Trimmed, Delay, Step, Known;
    var n := |events| - 1;
    var before := events[..n];
    assert events == before + [events[n]];
    PrefixPossible(events, n);
    j := n;
    SpawnsKnown(before);
    SpawnStep(After(before), events[n], t);
    if k == n {
      AwaitedInFlight(before, events[n].now);
    } else {
      assert before[..k] == events[..k];
      j := AwaitedSettles(before, k, t);
      if t in After(before).tasks {
        j := n;
      } else {
        assert before[..j] == events[..j];
      }
    }
  }

  lemma AwaitedInFlight(events: seq<Event>, now: int)
    requires Possible(events)
    ensures (var c := Called(After(events), now); c.1.Awaiting? ==> c.1.task in c.0.tasks)
    ensures Step(After(events), Call(now)) == Called(After(events), now).0
  {
    hide Trimmed, Delay;
    OneSpawnInFlight(events);
  }

  /**
   A caller that is told to wait for a spawn waits until that spawn fails, and is
   rejected, or assigns its handle, and gets that handle; the handle is dead
   exactly when it died before it was assigned.
   */
  lemma AwaiterGetsDeadExactly(events: seq<Event>, k: nat, t: Task) returns (j: nat)
    requires Possible(events) && k < |events| && AwaitsAt(events, k, t)
    ensures t in After(events).tasks || (k < j < |events| && SettledBy(events, j, t))
    ensures t !in After(events).tasks && After(events).settled[t].Delivered? ==> (
              var handle := After(events).settled[t].handle;
              && Possible(events[..j + 1])
              && (handle in After(events[..j + 1]).dead <==> Dies(handle) in events[..j]))
  {
    hide Called, Trimmed, Delay, Step, After, Possible, AwaitsAt;
    j := AwaitedSettles(events, k, t);
    if t !in After(events).tasks && After(events).settled[t].Delivered? {
      PrefixPossible(events, j + 1);
      DeathsRecorded(events[..j + 1], After(events).settled[t].handle);
      assert events[..j + 1] == events[..j] + [Assigns(t)];
    }
  }

  // A child that dies between connecting and being assigned.
  const SHORT_LIVED := [Call(0), Connects(0), Dies(0), Assigns(0)]

  // Where the run stands after its first n events.
  function ShortLived(n: nat): State
    requires n <= 4
  {
    match n
    case 0 => START
    case 1 => START.(history := [0], initPromise := Some(0), started := 1, tasks := map[0 := Connecting])
    case 2 => ShortLived(1).(tasks := map[0 := Connected(0)], handles := 1)
    case 3 => ShortLived(2).(dead := {0})
    case 4 => ShortLived(3).(live := Some(0), initPromise := None, tasks := map[], settled := map[0 := Delivered(0)])
  }

  lemma ShortLivedStep(n: nat)
    requires n < 4
    ensures Enabled(ShortLived(n), SHORT_LIVED[n]) && Step(ShortLived(n), SHORT_LIVED[n]) == ShortLived(n + 1)
  {
    if n == 0 { assert Trimmed([], 0) == []; }
  }

  lemma {:induction false} ShortLivedRun(n: nat)
    requires n <= 4
    ensures Possible(SHORT_LIVED[..n]) && After(SHORT_LIVED[..n]) == ShortLived(n)
  {
    if n > 0 {
      hide Step, Enabled, ShortLived;
      ShortLivedRun(n - 1);
      ShortLivedStep(n - 1);
      Happens(SHORT_LIVED[..n - 1], SHORT_LIVED[n - 1]);
      assert SHORT_LIVED[..n] == SHORT_LIVED[..n - 1] + [SHORT_LIVED[n - 1]];
    }
  }

  /** Such a run exists: its caller is handed a dead handle, and the next caller is not. */
  lemma DeadOnArrival(now: int)
    ensures Possible(SHORT_LIVED) && Clocked(SHORT_LIVED)
    ensures AwaitsAt(SHORT_LIVED, 0, 0)
    ensures (var s := After(SHORT_LIVED); 0 in s.settled && s.settled[0] == Delivered(0) && 0 in s.dead)
    ensures !Called(After(SHORT_LIVED), now).1.Ready?
  {
    ShortLivedRun(0);
    ShortLivedRun(4);
    assert SHORT_LIVED[..4] == SHORT_LIVED;
    hide After, Possible;
  }
}
