/**
 The single-flight gate in front of the remote backend: any number of tasks ask for any
 number of blobs; a per-hash gate from a shared map lets one of them download while the
 others wait and look again. A state machine whose steps are the atomic actions of the
 tasks; a download may fail, and then its gate is dropped and nothing is cached.
 */
module SingleFlight {
  import opened Sequences
  import opened Ordering

  /** The `n`-th gate ever made for a hash. */
  datatype Gate = Gate(hash: nat, n: nat)

  datatype Pc =
    | Asking                        // before the gate map is consulted
    | Waiting(gate: Gate)           // holds a gate, not its lock
    | Locked(gate: Gate)            // has the lock, has not looked again
    | Fetching(gate: Gate)          // looked again, found nothing
    | Fetched(gate: Gate)           // downloaded, not yet in the cache
    | Leaving(gate: Gate, ok: bool) // cached or failed; the gate is still in the map
    | Unlocking(gate: Gate, ok: bool)
    | Finished(ok: bool)

  datatype Task = Task(hash: nat, pc: Pc)

  /**
   `inflight` is the gate map, `held` says which task has a gate's lock, `done` is the cache.
   `downloads` logs every completed download with the gate it ran under, `failures` the
   downloads that failed, `created` the gates made.
   */
  datatype State = State(tasks: seq<Task>, inflight: map<nat, Gate>, held: map<Gate, nat>, done: set<nat>,
                         created: multiset<nat>, downloads: seq<Gate>, failures: multiset<nat>)

  function Init(hashes: seq<nat>): State {
    State(Map((h: nat) => Task(h, Asking), hashes), map[], map[], {}, multiset{}, [], multiset{})
  }

  predicate Enabled(s: State, i: nat) {
    && i < |s.tasks|
    && !s.tasks[i].pc.Finished?
    && (s.tasks[i].pc.Waiting? ==> s.tasks[i].pc.gate !in s.held)
  }

  function SetPc(s: State, i: nat, pc: Pc): State
    requires i < |s.tasks|
  {
    s.(tasks := s.tasks[i := s.tasks[i].(pc := pc)])
  }

  /** The next action of task `i`; `fails` is the outcome if that action is a download. */
  function Step(s: State, i: nat, fails: bool): State
    requires Enabled(s, i)
  {
    var h := s.tasks[i].hash;
    match s.tasks[i].pc
    case Asking =>
      if h in s.inflight then SetPc(s, i, Waiting(s.inflight[h]))
      else
        var gate := Gate(h, s.created[h]);
        SetPc(s, i, Waiting(gate)).(inflight := s.inflight[h := gate], created := s.created + multiset{h})
    case Waiting(gate) => SetPc(s, i, Locked(gate)).(held := s.held[gate := i])
    case Locked(gate) =>
      if h in s.done then SetPc(s, i, Unlocking(gate, true)) else SetPc(s, i, Fetching(gate))
    case Fetching(gate) =>
      if fails then SetPc(s, i, Leaving(gate, false))
      else SetPc(s, i, Fetched(gate)).(downloads := s.downloads + [gate])
    case Fetched(gate) => SetPc(s, i, Leaving(gate, true)).(done := s.done + {h})
    case Leaving(gate, ok) =>
      SetPc(s, i, Unlocking(gate, ok)).(
        inflight := s.inflight - {h},
        failures := if ok then s.failures else s.failures + multiset{h})
    case Unlocking(gate, ok) => SetPc(s, i, Finished(ok)).(held := s.held - {gate})
  }

  /** A schedule names the task that moves and the outcome of a download; others are skipped. */
  function Run(s: State, schedule: seq<(nat, bool)>): State
    decreases |schedule|
  {
    if schedule == [] then s
    else
      var (i, fails) := schedule[0];
      Run(if Enabled(s, i) then Step(s, i, fails) else s, schedule[1..])
  }

  // ----- the invariant

  predicate HasGate(pc: Pc) { !pc.Asking? && !pc.Finished? }

  predicate Holds(pc: Pc) { HasGate(pc) && !pc.Waiting? }

  ghost predicate GatesKnown(s: State) {
    && (forall i :: 0 <= i < |s.tasks| && HasGate(s.tasks[i].pc) ==>
          s.tasks[i].pc.gate.hash == s.tasks[i].hash && s.tasks[i].pc.gate.n < s.created[s.tasks[i].hash])
    && (forall h :: h in s.inflight ==> s.inflight[h].hash == h && s.inflight[h].n + 1 == s.created[h])
  }

  /** A lock has one holder. */
  ghost predicate Exclusive(s: State) {
    && (forall i :: 0 <= i < |s.tasks| && Holds(s.tasks[i].pc) ==>
          s.tasks[i].pc.gate in s.held && s.held[s.tasks[i].pc.gate] == i)
    && (forall g :: g in s.held ==>
          s.held[g] < |s.tasks| && Holds(s.tasks[s.held[g]].pc) && s.tasks[s.held[g]].pc.gate == g)
  }

  /** While a blob is not cached, a new gate is made only after a failure dropped the last one. */
  ghost predicate GatesCounted(s: State) {
    forall h :: h !in s.done ==> s.created[h] <= s.failures[h] + if h in s.inflight then 1 else 0
  }

  /** Gates that led or may lead to a download. */
  ghost predicate GatesBounded(s: State) {
    && (forall i :: 0 <= i < |s.tasks| && s.tasks[i].pc.Fetching? ==>
          s.tasks[i].pc.gate.n <= s.failures[s.tasks[i].hash])
    && (forall g :: g in s.downloads ==> g.n <= s.failures[g.hash])
  }

  /** A gate downloads once: afterwards its blob is cached, or about to be by the lock's holder. */
  ghost predicate OncePerGate(s: State) {
    && Distinct(s.downloads)
    && (forall i :: 0 <= i < |s.tasks| && s.tasks[i].pc.Fetching? ==> s.tasks[i].pc.gate !in s.downloads)
    && (forall g :: g in s.downloads && g.hash !in s.done ==>
          g in s.held && s.held[g] < |s.tasks| && s.tasks[s.held[g]].pc == Fetched(g))
  }

  predicate ReportsSuccess(pc: Pc) {
    match pc
    case Leaving(_, ok) => ok
    case Unlocking(_, ok) => ok
    case Finished(ok) => ok
    case _ => false
  }

  /** Who reports success has the blob in the cache; what is cached was downloaded. */
  ghost predicate Served(s: State) {
    && (forall i :: 0 <= i < |s.tasks| && ReportsSuccess(s.tasks[i].pc) ==> s.tasks[i].hash in s.done)
    && (forall i :: 0 <= i < |s.tasks| && s.tasks[i].pc.Fetched? ==> s.tasks[i].pc.gate in s.downloads)
    && (forall h :: h in s.done ==> Downloaded(s, h))
  }

  ghost predicate Downloaded(s: State, h: nat) {
    exists g :: g in s.downloads && g.hash == h
  }

  ghost predicate Inv(s: State) {
    GatesKnown(s) && Exclusive(s) && GatesCounted(s) && GatesBounded(s) && OncePerGate(s) && Served(s)
  }

  lemma InitInv(hashes: seq<nat>)
    ensures Inv(Init(hashes))
  {
  }

  /** What a step leaves alone. */
  lemma StepFrame(s: State, i: nat, fails: bool)
    requires Enabled(s, i)
    ensures var s' := Step(s, i, fails);
            && |s'.tasks| == |s.tasks| && s'.tasks[i].hash == s.tasks[i].hash
            && (forall k :: 0 <= k < |s.tasks| && k != i ==> s'.tasks[k] == s.tasks[k])
            && (forall h :: s'.failures[h] >= s.failures[h])
            && (s'.downloads == s.downloads ||
                (s.tasks[i].pc.Fetching? && s'.tasks[i].pc.Fetched?
                 && s'.downloads == s.downloads + [s.tasks[i].pc.gate]))
  {
  }

  lemma AskKnown(s: State, i: nat, fails: bool)
    requires GatesKnown(s) && Enabled(s, i) && s.tasks[i].pc.Asking?
    ensures GatesKnown(Step(s, i, fails))
  {
    var s', h := Step(s, i, fails), s.tasks[i].hash;
    assert forall k :: 0 <= k < |s.tasks| && k != i ==> s'.tasks[k] == s.tasks[k];
    assert forall k: nat :: s'.created[k] >= s.created[k] && (k != h ==> s'.created[k] == s.created[k]);
  }

  lemma StepKnown(s: State, i: nat, fails: bool)
    requires GatesKnown(s) && Enabled(s, i)
    ensures GatesKnown(Step(s, i, fails))
  {
    if s.tasks[i].pc.Asking? {
      AskKnown(s, i, fails);
    } else {
      var s' := Step(s, i, fails);
      assert s'.created == s.created;
      assert forall h :: h in s'.inflight ==> h in s.inflight && s'.inflight[h] == s.inflight[h];
      forall k | 0 <= k < |s'.tasks| && HasGate(s'.tasks[k].pc)
        ensures s'.tasks[k].pc.gate.hash == s'.tasks[k].hash && s'.tasks[k].pc.gate.n < s'.created[s'.tasks[k].hash]
      {
        assert HasGate(s.tasks[k].pc) && s'.tasks[k].pc.gate == s.tasks[k].pc.gate;
      }
    }
  }

  lemma LockExclusive(s: State, i: nat, fails: bool)
    requires Exclusive(s) && Enabled(s, i) && s.tasks[i].pc.Waiting?
    ensures Exclusive(Step(s, i, fails))
  {
  }

  lemma UnlockExclusive(s: State, i: nat, fails: bool)
    requires Exclusive(s) && Enabled(s, i) && s.tasks[i].pc.Unlocking?
    ensures Exclusive(Step(s, i, fails))
  {
    var s' := Step(s, i, fails);
    forall k | 0 <= k < |s'.tasks| && Holds(s'.tasks[k].pc)
      ensures s'.tasks[k].pc.gate in s'.held && s'.held[s'.tasks[k].pc.gate] == k
    {
      assert k != i && s'.tasks[k] == s.tasks[k];
      assert s.tasks[k].pc.gate != s.tasks[i].pc.gate;
    }
  }

  lemma StepExclusive(s: State, i: nat, fails: bool)
    requires Exclusive(s) && Enabled(s, i)
    ensures Exclusive(Step(s, i, fails))
  {
    if s.tasks[i].pc.Waiting? {
      LockExclusive(s, i, fails);
    } else if s.tasks[i].pc.Unlocking? {
      UnlockExclusive(s, i, fails);
    } else {
      assert Step(s, i, fails).held == s.held;
    }
  }

  lemma StepCounted(s: State, i: nat, fails: bool)
    requires GatesCounted(s) && Served(s) && Enabled(s, i)
    ensures GatesCounted(Step(s, i, fails))
  {
  }

  lemma StepBounded(s: State, i: nat, fails: bool)
    requires GatesKnown(s) && GatesCounted(s) && GatesBounded(s) && Enabled(s, i)
    ensures GatesBounded(Step(s, i, fails))
  {
    var s' := Step(s, i, fails);
    StepFrame(s, i, fails);
    forall g | g in s'.downloads ensures g.n <= s'.failures[g.hash] {
      if g !in s.downloads {
        assert g == s.tasks[i].pc.gate;
      }
    }
    forall k | 0 <= k < |s'.tasks| && s'.tasks[k].pc.Fetching?
      ensures s'.tasks[k].pc.gate.n <= s'.failures[s'.tasks[k].hash]
    {
      if k == i {
        NewFetcherBounded(s, i, fails);
      }
    }
  }

  /** Who starts to download does so under one of the first gates. */
  lemma NewFetcherBounded(s: State, i: nat, fails: bool)
    requires GatesKnown(s) && GatesCounted(s) && Enabled(s, i) && Step(s, i, fails).tasks[i].pc.Fetching?
    ensures Step(s, i, fails).tasks[i].pc.gate.n <= Step(s, i, fails).failures[s.tasks[i].hash]
  {
    assert s.tasks[i].pc.Locked? && s.tasks[i].hash !in s.done;
  }

  lemma FetchOnce(s: State, i: nat, fails: bool)
    requires GatesKnown(s) && Exclusive(s) && OncePerGate(s) && Enabled(s, i) && s.tasks[i].pc.Fetching?
    ensures OncePerGate(Step(s, i, fails))
  {
    var s' := Step(s, i, fails);
    forall k | 0 <= k < |s'.tasks| && s'.tasks[k].pc.Fetching? ensures s'.tasks[k].pc.gate !in s'.downloads {
      assert k != i && s'.tasks[k] == s.tasks[k];
    }
  }

  /** Only a holder that leaves its download behind could break the rule, and it caches the blob first. */
  lemma OtherOnce(s: State, i: nat, fails: bool)
    requires GatesKnown(s) && Exclusive(s) && OncePerGate(s) && Enabled(s, i) && !s.tasks[i].pc.Fetching?
    ensures OncePerGate(Step(s, i, fails))
  {
    var s' := Step(s, i, fails);
    forall g | g in s'.downloads && g.hash !in s'.done
      ensures g in s'.held && s'.held[g] < |s'.tasks| && s'.tasks[s'.held[g]].pc == Fetched(g)
    {
      var k := s.held[g];
      assert s.tasks[k].pc == Fetched(g) && g.hash == s.tasks[k].hash;
    }
    forall k | 0 <= k < |s'.tasks| && s'.tasks[k].pc.Fetching? ensures s'.tasks[k].pc.gate !in s'.downloads {
      if k == i {
        LookedAgain(s, i);
      }
    }
  }

  /** A holder that looks again and finds nothing has no download behind its gate. */
  lemma LookedAgain(s: State, i: nat)
    requires GatesKnown(s) && Exclusive(s) && OncePerGate(s) && i < |s.tasks|
    requires s.tasks[i].pc.Locked? && s.tasks[i].hash !in s.done
    ensures s.tasks[i].pc.gate !in s.downloads
  {
    assert s.held[s.tasks[i].pc.gate] == i;
  }

  lemma StepOnce(s: State, i: nat, fails: bool)
    requires GatesKnown(s) && Exclusive(s) && OncePerGate(s) && Enabled(s, i)
    ensures OncePerGate(Step(s, i, fails))
  {
    if s.tasks[i].pc.Fetching? {
      FetchOnce(s, i, fails);
    } else {
      OtherOnce(s, i, fails);
    }
  }

  lemma StepServed(s: State, i: nat, fails: bool)
    requires GatesKnown(s) && Served(s) && Enabled(s, i)
    ensures Served(Step(s, i, fails))
  {
    var s' := Step(s, i, fails);
    assert s'.downloads == s.downloads
        || (s.tasks[i].pc.Fetching? && s'.downloads == s.downloads + [s.tasks[i].pc.gate]);
    assert forall g :: g in s.downloads ==> g in s'.downloads;
    forall h | h in s'.done ensures Downloaded(s', h) {
      if h in s.done {
        assert Downloaded(s, h);
      } else {
        assert s.tasks[i].pc.Fetched? && s.tasks[i].pc.gate in s.downloads;
      }
    }
    forall k | 0 <= k < |s'.tasks| && s'.tasks[k].pc.Fetched? ensures s'.tasks[k].pc.gate in s'.downloads {
      if k != i {
        assert s'.tasks[k] == s.tasks[k];
      }
    }
    forall k | 0 <= k < |s'.tasks| && ReportsSuccess(s'.tasks[k].pc) ensures s'.tasks[k].hash in s'.done {
      if k != i {
        assert s'.tasks[k] == s.tasks[k];
      }
    }
  }

  lemma StepInv(s: State, i: nat, fails: bool)
    requires Inv(s) && Enabled(s, i)
    ensures Inv(Step(s, i, fails))
  {
    StepKnown(s, i, fails);
    StepExclusive(s, i, fails);
    StepCounted(s, i, fails);
    StepBounded(s, i, fails);
    StepOnce(s, i, fails);
    StepServed(s, i, fails);
  }

  /** Whatever the scheduler does and whichever downloads fail. */
  lemma {:induction false} RunInv(s: State, schedule: seq<(nat, bool)>)
    requires Inv(s)
    ensures Inv(Run(s, schedule))
    decreases |schedule|
  {
    if schedule != [] {
      var (i, fails) := schedule[0];
      if Enabled(s, i) {
        StepInv(s, i, fails);
      }
      RunInv(if Enabled(s, i) then Step(s, i, fails) else s, schedule[1..]);
    }
  }

  // ----- how often a blob is downloaded

  function Of(h: nat): Gate -> bool { (g: Gate) => g.hash == h }

  function Downloads(s: State, h: nat): nat { |Filter(Of(h), s.downloads)| }

  function Numbered(h: nat, m: nat): set<Gate> { set n | 0 <= n < m :: Gate(h, n) }

  lemma {:induction false} NumberedCount(h: nat, m: nat)
    ensures |Numbered(h, m)| == m
  {
    if m > 0 {
      NumberedCount(h, m - 1);
      assert Numbered(h, m) == Numbered(h, m - 1) + {Gate(h, m - 1)};
    }
  }

  /** Different gates of one hash numbered below `m`: at most `m` of them. */
  lemma GatesBelow(gates: seq<Gate>, h: nat, m: nat)
    requires Distinct(gates) && forall g :: g in gates ==> g.hash == h && g.n < m
    ensures |gates| <= m
  {
    DistinctElements(gates);
    NumberedCount(h, m);
    forall g | g in Elements(gates) ensures g in Numbered(h, m) {
      assert g == Gate(h, g.n);
    }
    var rest := Numbered(h, m) - Elements(gates);
    assert Numbered(h, m) == Elements(gates) + rest;
  }

  /**
   In every interleaving of any number of tasks over any number of hashes, a blob is
   downloaded at most once more often than its downloads failed.
   */
  lemma DownloadsBounded(hashes: seq<nat>, schedule: seq<(nat, bool)>, h: nat)
    ensures var s := Run(Init(hashes), schedule); Downloads(s, h) <= 1 + s.failures[h]
  {
    var s := Run(Init(hashes), schedule);
    InitInv(hashes);
    RunInv(Init(hashes), schedule);
    FilterDistinct(Of(h), s.downloads);
    GatesBelow(Filter(Of(h), s.downloads), h, s.failures[h] + 1);
  }

  /** Without failures: each blob is downloaded at most once, and exactly once if a task got it. */
  lemma SingleDownload(hashes: seq<nat>, schedule: seq<(nat, bool)>, h: nat)
    requires Run(Init(hashes), schedule).failures[h] == 0
    ensures Downloads(Run(Init(hashes), schedule), h) <= 1
    ensures h in Run(Init(hashes), schedule).done ==> Downloads(Run(Init(hashes), schedule), h) == 1
  {
    var s := Run(Init(hashes), schedule);
    DownloadsBounded(hashes, schedule, h);
    InitInv(hashes);
    RunInv(Init(hashes), schedule);
    if h in s.done {
      assert Downloaded(s, h);
      var g :| g in s.downloads && g.hash == h;
      assert g in Filter(Of(h), s.downloads);
    }
  }

  /** No task returns successfully before its blob is in the cache. */
  lemma NoEarlyReturn(hashes: seq<nat>, schedule: seq<(nat, bool)>, i: nat)
    requires i < |hashes|
    ensures var s := Run(Init(hashes), schedule);
            && |s.tasks| == |hashes| && s.tasks[i].hash == hashes[i]
            && (s.tasks[i].pc == Finished(true) ==> hashes[i] in s.done)
  {
    InitInv(hashes);
    RunInv(Init(hashes), schedule);
    RunTasks(Init(hashes), schedule);
  }

  lemma {:induction false} RunTasks(s: State, schedule: seq<(nat, bool)>)
    ensures |Run(s, schedule).tasks| == |s.tasks|
    ensures forall i :: 0 <= i < |s.tasks| ==> Run(s, schedule).tasks[i].hash == s.tasks[i].hash
    decreases |schedule|
  {
    if schedule != [] {
      var (i, fails) := schedule[0];
      if Enabled(s, i) {
        StepFrame(s, i, fails);
      }
      RunTasks(if Enabled(s, i) then Step(s, i, fails) else s, schedule[1..]);
    }
  }

  // ----- what a task reports

  predicate ReportsFailure(pc: Pc) {
    match pc
    case Leaving(_, ok) => !ok
    case Unlocking(_, ok) => !ok
    case Finished(ok) => !ok
    case _ => false
  }

  /** The schedule let the download of task `i` fail: it moved the task with that outcome while it was downloading. */
  ghost predicate DownloadFailed(hashes: seq<nat>, schedule: seq<(nat, bool)>, i: nat) {
    schedule != [] &&
    var n := |schedule| - 1;
    || DownloadFailed(hashes, schedule[..n], i)
    || (schedule[n] == (i, true) && IsFetching(Run(Init(hashes), schedule[..n]), i))
  }

  predicate IsFetching(s: State, i: nat) {
    i < |s.tasks| && s.tasks[i].pc.Fetching?
  }

  lemma StepReports(s: State, j: nat, fails: bool, i: nat)
    requires Enabled(s, j) && i < |s.tasks|
    ensures ReportsFailure(Step(s, j, fails).tasks[i].pc) <==>
            ReportsFailure(s.tasks[i].pc) || (i == j && fails && IsFetching(s, i))
  {
  }

  /** In every run a task is on its way to report a failure, or has, exactly when its own download failed. */
  lemma {:induction false} ReportsIff(hashes: seq<nat>, schedule: seq<(nat, bool)>, i: nat)
    requires i < |hashes|
    ensures |Run(Init(hashes), schedule).tasks| == |hashes|
    ensures ReportsFailure(Run(Init(hashes), schedule).tasks[i].pc) <==> DownloadFailed(hashes, schedule, i)
    decreases |schedule|
  {
    RunTasks(Init(hashes), schedule);
    if schedule != [] {
      var n := |schedule| - 1;
      var (j, fails) := schedule[n];
      var s := Run(Init(hashes), schedule[..n]);
      ReportsIff(hashes, schedule[..n], i);
      LastSnoc(schedule);
      RunSnoc(Init(hashes), schedule[..n], j, fails);
      if Enabled(s, j) {
        StepReports(s, j, fails, i);
      }
    }
  }

  lemma {:induction false} FailedWasScheduled(hashes: seq<nat>, schedule: seq<(nat, bool)>, i: nat)
    requires DownloadFailed(hashes, schedule, i)
    ensures (i, true) in schedule
  {
    var n := |schedule| - 1;
    if DownloadFailed(hashes, schedule[..n], i) {
      FailedWasScheduled(hashes, schedule[..n], i);
    }
  }

  /**
   Every task that ends reports the outcome it had: success exactly when its own download did
   not fail, and then with the blob cached; failure only if the schedule made it fail.
   */
  lemma OutcomeIff(hashes: seq<nat>, schedule: seq<(nat, bool)>, i: nat)
    requires i < |hashes|
    ensures var s := Run(Init(hashes), schedule);
            && |s.tasks| == |hashes|
            && (s.tasks[i].pc == Finished(true) ==> !DownloadFailed(hashes, schedule, i) && hashes[i] in s.done)
            && (s.tasks[i].pc == Finished(false) ==> DownloadFailed(hashes, schedule, i) && (i, true) in schedule)
  {
    ReportsIff(hashes, schedule, i);
    NoEarlyReturn(hashes, schedule, i);
    if DownloadFailed(hashes, schedule, i) {
      FailedWasScheduled(hashes, schedule, i);
    }
  }

  predicate HasDropped(task: Task, h: nat) {
    task.hash == h && ReportsFailure(task.pc) && !task.pc.Leaving?
  }

  /** The tasks of a hash that failed and have dropped their gate. */
  ghost function Dropped(s: State, h: nat): set<nat> {
    set i | 0 <= i < |s.tasks| && HasDropped(s.tasks[i], h)
  }

  lemma StepDrops(s: State, j: nat, fails: bool, h: nat)
    requires Enabled(s, j)
    ensures var s', drops := Step(s, j, fails), s.tasks[j].hash == h && s.tasks[j].pc.Leaving? && !s.tasks[j].pc.ok;
            && (drops ==> !HasDropped(s.tasks[j], h) && s'.failures[h] == s.failures[h] + 1)
            && (!drops ==> s'.failures[h] == s.failures[h])
            && (HasDropped(s'.tasks[j], h) <==> HasDropped(s.tasks[j], h) || drops)
  {
  }

  lemma StepDropped(s: State, j: nat, fails: bool, h: nat)
    requires Enabled(s, j) && s.failures[h] == |Dropped(s, h)|
    ensures Step(s, j, fails).failures[h] == |Dropped(Step(s, j, fails), h)|
  {
    var s' := Step(s, j, fails);
    StepFrame(s, j, fails);
    StepDrops(s, j, fails, h);
    if s.tasks[j].hash == h && s.tasks[j].pc.Leaving? && !s.tasks[j].pc.ok {
      assert Dropped(s', h) == Dropped(s, h) + {j};
    } else {
      assert Dropped(s', h) == Dropped(s, h);
    }
  }

  /** The failures counted are the tasks that failed and dropped their gate. */
  lemma {:induction false} FailuresCounted(s: State, schedule: seq<(nat, bool)>, h: nat)
    requires s.failures[h] == |Dropped(s, h)|
    ensures Run(s, schedule).failures[h] == |Dropped(Run(s, schedule), h)|
    decreases |schedule|
  {
    if schedule != [] {
      var (i, fails) := schedule[0];
      if Enabled(s, i) {
        StepDropped(s, i, fails, h);
      }
      FailuresCounted(if Enabled(s, i) then Step(s, i, fails) else s, schedule[1..], h);
    }
  }

  /** The tasks of a hash whose download the schedule made fail. */
  ghost function Failed(hashes: seq<nat>, schedule: seq<(nat, bool)>, h: nat): set<nat> {
    set i | 0 <= i < |hashes| && hashes[i] == h && DownloadFailed(hashes, schedule, i)
  }

  /** How often the schedule names a failure for a task of the hash. */
  function ScheduledFailures(hashes: seq<nat>, schedule: seq<(nat, bool)>, h: nat): nat {
    if schedule == [] then 0
    else
      var n := |schedule| - 1;
      var (i, fails) := schedule[n];
      ScheduledFailures(hashes, schedule[..n], h) + if fails && i < |hashes| && hashes[i] == h then 1 else 0
  }

  lemma SubsetCount<T>(a: set<T>, b: set<T>)
    requires a <= b
    ensures |a| <= |b|
  {
    assert b == a + (b - a);
  }

  lemma {:induction false} FailedScheduled(hashes: seq<nat>, schedule: seq<(nat, bool)>, h: nat)
    ensures |Failed(hashes, schedule, h)| <= ScheduledFailures(hashes, schedule, h)
    decreases |schedule|
  {
    if schedule == [] {
      assert Failed(hashes, schedule, h) == {};
    } else {
      var n := |schedule| - 1;
      var (i, fails) := schedule[n];
      FailedScheduled(hashes, schedule[..n], h);
      var before := Failed(hashes, schedule[..n], h);
      if fails && i < |hashes| && hashes[i] == h {
        SubsetCount(Failed(hashes, schedule, h), before + {i});
      } else {
        SubsetCount(Failed(hashes, schedule, h), before);
      }
    }
  }

  lemma DroppedFailed(hashes: seq<nat>, schedule: seq<(nat, bool)>, h: nat)
    ensures var s := Run(Init(hashes), schedule);
            && Dropped(s, h) <= Failed(hashes, schedule, h)
            && (AllFinished(s) ==> Dropped(s, h) == Failed(hashes, schedule, h))
  {
    var s := Run(Init(hashes), schedule);
    RunTasks(Init(hashes), schedule);
    forall i | 0 <= i < |hashes|
      ensures ReportsFailure(s.tasks[i].pc) <==> DownloadFailed(hashes, schedule, i)
    {
      ReportsIff(hashes, schedule, i);
    }
  }

  /**
   In every run the failures counted for a hash are at most the tasks whose download failed,
   and those at most the failures scheduled; at the end they are exactly those tasks.
   */
  lemma FailuresAre(hashes: seq<nat>, schedule: seq<(nat, bool)>, h: nat)
    ensures var s, failed := Run(Init(hashes), schedule), |Failed(hashes, schedule, h)|;
            && s.failures[h] <= failed <= ScheduledFailures(hashes, schedule, h)
            && (AllFinished(s) ==> s.failures[h] == failed)
  {
    assert Dropped(Init(hashes), h) == {};
    FailuresCounted(Init(hashes), schedule, h);
    DroppedFailed(hashes, schedule, h);
    SubsetCount(Dropped(Run(Init(hashes), schedule), h), Failed(hashes, schedule, h));
    FailedScheduled(hashes, schedule, h);
  }

  /** In every run a blob is downloaded at most once more often than its tasks' downloads failed. */
  lemma DownloadsByFailures(hashes: seq<nat>, schedule: seq<(nat, bool)>, h: nat)
    ensures Downloads(Run(Init(hashes), schedule), h) <= 1 + |Failed(hashes, schedule, h)|
  {
    DownloadsBounded(hashes, schedule, h);
    FailuresAre(hashes, schedule, h);
  }

  ghost predicate NoneFails(schedule: seq<(nat, bool)>) {
    forall k :: 0 <= k < |schedule| ==> !schedule[k].1
  }

  /** Where no download fails, every task that ends has succeeded, and every blob is downloaded at most once. */
  lemma AllSucceed(hashes: seq<nat>, schedule: seq<(nat, bool)>)
    requires NoneFails(schedule)
    ensures var s := Run(Init(hashes), schedule);
            && |s.tasks| == |hashes| && s.failures == multiset{}
            && (forall i :: 0 <= i < |hashes| && s.tasks[i].pc.Finished? ==>
                  s.tasks[i].pc == Finished(true) && hashes[i] in s.done)
            && (forall h :: Downloads(s, h) <= 1)
  {
    var s := Run(Init(hashes), schedule);
    RunTasks(Init(hashes), schedule);
    forall i | 0 <= i < |hashes| ensures !DownloadFailed(hashes, schedule, i) {
      if DownloadFailed(hashes, schedule, i) {
        FailedWasScheduled(hashes, schedule, i);
      }
    }
    forall i | 0 <= i < |hashes| && s.tasks[i].pc.Finished?
      ensures s.tasks[i].pc == Finished(true) && hashes[i] in s.done
    {
      OutcomeIff(hashes, schedule, i);
    }
    forall h ensures s.failures[h] == 0 && Downloads(s, h) <= 1 {
      assert Failed(hashes, schedule, h) == {};
      FailuresAre(hashes, schedule, h);
      DownloadsByFailures(hashes, schedule, h);
    }
  }

  // ----- progress

  ghost predicate AllFinished(s: State) {
    forall i :: 0 <= i < |s.tasks| ==> s.tasks[i].pc.Finished?
  }

  /** Somebody can always move: the holder of a lock never waits. */
  lemma NoDeadlock(s: State) returns (i: nat)
    requires Inv(s) && !AllFinished(s)
    ensures Enabled(s, i)
  {
    i :| 0 <= i < |s.tasks| && !s.tasks[i].pc.Finished?;
    if !Enabled(s, i) {
      i := s.held[s.tasks[i].pc.gate];
    }
  }

  /** How many more steps a task can take. */
  function Rank(pc: Pc): nat {
    match pc
    case Asking => 7
    case Waiting(_) => 6
    case Locked(_) => 5
    case Fetching(_) => 4
    case Fetched(_) => 3
    case Leaving(_, _) => 2
    case Unlocking(_, _) => 1
    case Finished(_) => 0
  }

  function Work(tasks: seq<Task>): nat {
    if tasks == [] then 0 else Rank(tasks[0].pc) + Work(tasks[1..])
  }

  lemma {:induction false} WorkDrops(tasks: seq<Task>, i: nat, task: Task)
    requires i < |tasks| && Rank(task.pc) < Rank(tasks[i].pc)
    ensures Work(tasks[i := task]) < Work(tasks)
  {
    if i > 0 {
      WorkDrops(tasks[1..], i - 1, task);
      assert tasks[i := task][1..] == tasks[1..][i - 1 := task];
    }
  }

  lemma StepWorks(s: State, i: nat, fails: bool)
    requires Enabled(s, i)
    ensures Work(Step(s, i, fails).tasks) < Work(s.tasks)
  {
    var s' := Step(s, i, fails);
    assert Rank(s'.tasks[i].pc) < Rank(s.tasks[i].pc);
    assert s'.tasks == s.tasks[i := s'.tasks[i]];
    WorkDrops(s.tasks, i, s'.tasks[i]);
  }

  /** Every state reached can be run to the end: a scheduler that moves whoever can move finishes all tasks. */
  lemma {:induction false} CanFinish(s: State, fails: bool) returns (schedule: seq<(nat, bool)>)
    requires Inv(s)
    ensures AllFinished(Run(s, schedule)) && |schedule| <= Work(s.tasks)
    decreases Work(s.tasks)
  {
    if AllFinished(s) {
      schedule := [];
    } else {
      var i := NoDeadlock(s);
      StepInv(s, i, fails);
      StepWorks(s, i, fails);
      var rest := CanFinish(Step(s, i, fails), fails);
      schedule := [(i, fails)] + rest;
      assert schedule[1..] == rest;
    }
  }

  lemma {:induction false} RunSnoc(s: State, schedule: seq<(nat, bool)>, i: nat, fails: bool)
    ensures var t := Run(s, schedule);
            Run(s, schedule + [(i, fails)]) == if Enabled(t, i) then Step(t, i, fails) else t
    decreases |schedule|
  {
    if schedule == [] {
      assert schedule + [(i, fails)] == [(i, fails)] && [(i, fails)][1..] == [];
    } else {
      TailAppend(schedule, [(i, fails)]);
      var (j, f) := schedule[0];
      RunSnoc(if Enabled(s, j) then Step(s, j, f) else s, schedule[1..], i, fails);
    }
  }

  lemma Move(init: State, schedule: seq<(nat, bool)>, i: nat, fails: bool) returns (longer: seq<(nat, bool)>)
    requires Enabled(Run(init, schedule), i)
    ensures Run(init, longer) == Step(Run(init, schedule), i, fails)
  {
    RunSnoc(init, schedule, i, fails);
    longer := schedule + [(i, fails)];
  }

  /** Tasks 0 and 1 share a gate, and task 0 gets its lock. */
  lemma FirstLocks(h: nat) returns (x: seq<(nat, bool)>)
    ensures var g := Gate(h, 0);
            Run(Init([h, h, h]), x) == State([Task(h, Locked(g)), Task(h, Waiting(g)), Task(h, Asking)],
                                             map[h := g], map[g := 0], {}, multiset{h}, [], multiset{})
  {
    var init := Init([h, h, h]);
    assert init.tasks == [Task(h, Asking), Task(h, Asking), Task(h, Asking)];
    x := Move(init, [], 0, false);
    x := Move(init, x, 1, false);
    x := Move(init, x, 0, false);
  }

  /** Then task 0 fails and drops the gate. */
  lemma FirstFails(h: nat) returns (x: seq<(nat, bool)>)
    ensures Run(Init([h, h, h]), x) ==
              State([Task(h, Finished(false)), Task(h, Waiting(Gate(h, 0))), Task(h, Asking)],
                    map[], map[], {}, multiset{h}, [], multiset{h})
  {
    var init := Init([h, h, h]);
    x := FirstLocks(h);
    x := Move(init, x, 0, false);
    x := Move(init, x, 0, true);
    x := Move(init, x, 0, false);
    x := Move(init, x, 0, false);
  }

  /** The waiter goes on under the dropped gate while a newcomer makes another. */
  lemma TwoGates(h: nat) returns (x: seq<(nat, bool)>)
    ensures var g, g' := Gate(h, 0), Gate(h, 1);
            Run(Init([h, h, h]), x) == State([Task(h, Finished(false)), Task(h, Fetching(g)), Task(h, Waiting(g'))],
                                             map[h := g'], map[g := 1], {}, multiset{h, h}, [], multiset{h})
  {
    var init := Init([h, h, h]);
    x := FirstFails(h);
    x := Move(init, x, 2, false);
    x := Move(init, x, 1, false);
    x := Move(init, x, 1, false);
  }

  lemma BothFetch(h: nat) returns (x: seq<(nat, bool)>)
    ensures var g, g' := Gate(h, 0), Gate(h, 1);
            Run(Init([h, h, h]), x) == State([Task(h, Finished(false)), Task(h, Fetching(g)), Task(h, Fetching(g'))],
                                             map[h := g'], map[g := 1, g' := 2], {}, multiset{h, h}, [], multiset{h})
  {
    var init := Init([h, h, h]);
    x := TwoGates(h);
    x := Move(init, x, 2, false);
    x := Move(init, x, 2, false);
  }

  /** The bound is met: after that failure the waiter and a newcomer download side by side. */
  lemma FailureAdmitsTwo(h: nat) returns (x: seq<(nat, bool)>)
    ensures Run(Init([h, h, h]), x).failures == multiset{h}
    ensures Run(Init([h, h, h]), x).downloads == [Gate(h, 0), Gate(h, 1)]
  {
    var init := Init([h, h, h]);
    x := BothFetch(h);
    x := Move(init, x, 1, false);
    x := Move(init, x, 2, false);
  }
}
