/**
 The queue of infra/ScheduledTaskQueue under concurrency: its outstanding-task counter, and whether
 a committed task can get lost.

 Scheduler threads put tasks into batches of their own, counting each, and later write the batch
 or fail to. One execution thread scans, lets the processor work, writes one batch, and only then
 counts the completed tasks off. Every step below is atomic in the source: an increment, a
 decrement, a scan or a write. The counter is unsigned there, so it must not go below zero.
 */
module TaskCounters {
  import opened Bytes
  import opened Databases
  import opened TaskKeys
  import opened TaskRounds
  import opened TaskQueues

  /** `handed` is which write of each task was handed over, as a position in the log below, and
      `meanwhile` what schedulers have written since; both are history, not variables of the program. */
  datatype Phase =
    | Idle
    | Processing(scanned: Tasks, batch: Batch<bytes>, handed: map<bytes, int>, meanwhile: Batch<bytes>)
    | Owing(completed: nat)

  /** `pending[t]` is the unwritten batch of scheduler thread t. `log` and `delivered` are history too:
      every write in its order, and the writes that a processor was handed and has completed. Two
      writes of one task are two positions of the log, whatever their values. */
  datatype State = State(store: Tasks, counter: int, pending: seq<Batch<bytes>>, phase: Phase,
                         log: Batch<bytes>, delivered: set<int>)

  datatype Step =
    | Schedule(thread: nat, key: bytes, value: bytes)
    | Commit(thread: nat, ok: bool)
    | Scan(max: int, found: set<bytes>)
    | Reschedule(key: bytes, value: bytes)
    | WriteResults(completed: set<bytes>)
    | CountOff
    | Restart

  predicate Enabled(s: State, step: Step) {
    match step
    case Schedule(t, key, _) => t < |s.pending| && IsTaskKey(key)
    case Commit(t, _) => t < |s.pending|
    case Scan(max, found) =>
      && s.phase.Idle? && max <= INT64_MAX && found <= s.store.Keys
      && forall k | k in found :: IsTaskKey(k) && Timestamp(k) < max
    case Reschedule(key, _) => s.phase.Processing? && IsTaskKey(key)
    case WriteResults(completed) => s.phase.Processing? && completed <= s.phase.scanned.Keys
    case CountOff => s.phase.Owing?
    case Restart => true
  }

  function Restricted(store: Tasks, keys: set<bytes>): Tasks {
    map k | k in store && k in keys :: store[k]
  }

  function NoBatches(threads: nat): seq<Batch<bytes>> {
    seq(threads, _ => [])
  }

  /** The position of the last write of k; -1 when there is none. */
  function LastWrite(log: Batch<bytes>, k: bytes): (i: int)
    ensures -1 <= i < |log| && (i >= 0 ==> log[i].key == k)
    ensures forall j :: i < j < |log| ==> log[j].key != k
  {
    if log == [] then -1
    else if log[|log| - 1].key == k then |log| - 1
    else LastWrite(log[..|log| - 1], k)
  }

  function Scanned(s: State, found: set<bytes>): Phase {
    Processing(Restricted(s.store, found), [], map k | k in s.store && k in found :: LastWrite(s.log, k), [])
  }

  function Committed(s: State, batch: Batch<bytes>): State {
    s.(store := Apply(s.store, batch), log := s.log + batch,
       phase := if s.phase.Processing? then s.phase.(meanwhile := s.phase.meanwhile + batch) else s.phase)
  }

  /** The writes handed over as the completed tasks. */
  function HandedOver(handed: map<bytes, int>, completed: set<bytes>): set<int> {
    set k | k in completed && k in handed :: handed[k]
  }

  /** The processor's puts come before the deletes in the one batch that is written. */
  function Finished(s: State, completed: set<bytes>): State
    requires s.phase.Processing?
  {
    s.(store := Apply(s.store, s.phase.batch) - completed,
       log := s.log + s.phase.batch,
       delivered := s.delivered + HandedOver(s.phase.handed, completed),
       phase := Owing(|completed|))
  }

  /** A restart counts what a scan up to the largest timestamp finds; the bound is exclusive. */
  function Next(s: State, step: Step): State
    requires Enabled(s, step)
  {
    match step
    case Schedule(t, key, value) =>
      s.(counter := s.counter + 1, pending := s.pending[t := s.pending[t] + [Put(key, value)]])
    case Commit(t, ok) =>
      (if ok then Committed(s, s.pending[t]) else s).(pending := s.pending[t := []])
    case Scan(_, found) => s.(phase := Scanned(s, found))
    case Reschedule(key, value) =>
      s.(counter := s.counter + 1, phase := s.phase.(batch := s.phase.batch + [Put(key, value)]))
    case WriteResults(completed) => Finished(s, completed)
    case CountOff => s.(counter := s.counter - s.phase.completed, phase := Idle)
    case Restart =>
      s.(counter := |Counted(false, s.store.Keys)|, pending := NoBatches(|s.pending|), phase := Idle)
  }

  function Initial(threads: nat): State {
    State(map[], 0, NoBatches(threads), Idle, [], {})
  }

  /** The state after the steps, starting from s; None when they cannot happen. */
  function RunFrom(s: State, steps: seq<Step>): Option<State> {
    if steps == [] then Some(s)
    else
      match RunFrom(s, steps[..|steps| - 1])
      case None => None
      case Some(t) => if Enabled(t, steps[|steps| - 1]) then Some(Next(t, steps[|steps| - 1])) else None
  }

  /** The state after the steps, starting from an empty queue. */
  function Run(threads: nat, steps: seq<Step>): Option<State> {
    RunFrom(Initial(threads), steps)
  }

  // ----- the invariant of the counter, for all tasks or for those below the largest timestamp

  predicate Counts(all: bool, k: bytes) {
    all || (IsTaskKey(k) && Timestamp(k) < INT64_MAX)
  }

  function Counted(all: bool, keys: set<bytes>): set<bytes> {
    set k | k in keys && Counts(all, k)
  }

  function CountIn(all: bool, batch: Batch<bytes>): nat {
    if batch == [] then 0
    else CountIn(all, batch[..|batch| - 1]) + if Counts(all, batch[|batch| - 1].key) then 1 else 0
  }

  function CountPending(all: bool, pending: seq<Batch<bytes>>): nat {
    if pending == [] then 0 else CountPending(all, pending[..|pending| - 1]) + CountIn(all, pending[|pending| - 1])
  }

  function CountPhase(all: bool, phase: Phase): nat {
    match phase
    case Idle => 0
    case Processing(_, batch, _, _) => CountIn(all, batch)
    case Owing(n) => n
  }

  /** Only puts are ever batched, so that a scanned task stays stored until the results are written. */
  predicate OnlyPuts(batch: Batch<bytes>) {
    forall i :: 0 <= i < |batch| ==> batch[i].Put?
  }

  predicate PutsEverywhere(s: State) {
    && (forall t :: 0 <= t < |s.pending| ==> OnlyPuts(s.pending[t]))
    && (s.phase.Processing? ==> OnlyPuts(s.phase.batch) && OnlyPuts(s.phase.meanwhile))
  }

  ghost predicate Inv(all: bool, s: State) {
    && s.counter >= |Counted(all, s.store.Keys)| + CountPending(all, s.pending) + CountPhase(all, s.phase)
    && PutsEverywhere(s)
    && (s.phase.Processing? ==>
          s.phase.scanned.Keys <= s.store.Keys && forall k | k in s.phase.scanned :: Counts(false, k))
  }

  lemma {:induction false} CountPendingUpdate(all: bool, pending: seq<Batch<bytes>>, t: nat, batch: Batch<bytes>)
    requires t < |pending|
    ensures CountPending(all, pending[t := batch])
         == CountPending(all, pending) - CountIn(all, pending[t]) + CountIn(all, batch)
  {
    hide Counts;
    var updated, n := pending[t := batch], |pending| - 1;
    if t == n {
      assert updated[..n] == pending[..n];
    } else {
      assert updated[..n] == pending[..n][t := batch];
      CountPendingUpdate(all, pending[..n], t, batch);
    }
  }

  lemma CountInSnoc(all: bool, batch: Batch<bytes>, op: Op<bytes>)
    ensures CountIn(all, batch + [op]) == CountIn(all, batch) + if Counts(all, op.key) then 1 else 0
  {
    assert (batch + [op])[..|batch + [op]| - 1] == batch;
  }

  lemma {:induction false} CountPendingEmpty(all: bool, n: nat)
    ensures CountPending(all, NoBatches(n)) == 0
  {
    if n > 0 {
      assert NoBatches(n)[..n - 1] == NoBatches(n - 1);
      CountPendingEmpty(all, n - 1);
    }
  }

  /** A batch adds at most as many stored tasks as it has keys; equal keys overwrite. */
  lemma {:induction false} StoreGrows(all: bool, store: Tasks, batch: Batch<bytes>)
    requires OnlyPuts(batch)
    ensures |Counted(all, Apply(store, batch).Keys)| <= |Counted(all, store.Keys)| + CountIn(all, batch)
    ensures store.Keys <= Apply(store, batch).Keys
  {
    hide Counts, Counted;
    if batch != [] {
      var init, op := batch[..|batch| - 1], batch[|batch| - 1];
      StoreGrows(all, store, init);
      assert Apply(store, batch).Keys == Apply(store, init).Keys + {op.key};
      OneMoreStored(all, Apply(store, init).Keys, op.key);
    }
  }

  lemma OneMoreStored(all: bool, keys: set<bytes>, k: bytes)
    ensures |Counted(all, keys + {k})| <= |Counted(all, keys)| + if Counts(all, k) then 1 else 0
  {
    hide Counts;
    if Counts(all, k) {
      assert Counted(all, keys + {k}) == Counted(all, keys) + {k};
    } else {
      assert Counted(all, keys + {k}) == Counted(all, keys);
    }
  }

  lemma CompletedLeave(all: bool, keys: set<bytes>, completed: set<bytes>)
    requires completed <= keys && forall k | k in completed :: Counts(false, k)
    ensures |Counted(all, keys - completed)| == |Counted(all, keys)| - |completed|
  {
    assert Counted(all, keys - completed) == Counted(all, keys) - completed;
    assert completed <= Counted(all, keys);
  }

  lemma StepKeeps(all: bool, s: State, step: Step)
    requires Inv(all, s) && Enabled(s, step)
    requires all ==> !step.Restart?
    ensures Inv(all, Next(s, step))
  {
    hide Counts, CountPending, CountIn, Apply, HandedOver, LastWrite;
    match step
    case Schedule(t, key, value) =>
      CountPendingUpdate(all, s.pending, t, s.pending[t] + [Put(key, value)]);
      CountInSnoc(all, s.pending[t], Put(key, value));
    case Commit(t, ok) =>
      CountPendingUpdate(all, s.pending, t, []);
      CountNone(all);
      StoreGrows(all, s.store, s.pending[t]);
    case Scan(max, found) =>
      CountNone(all);
      DueAreCounted(found, max);
    case Reschedule(key, value) =>
      CountInSnoc(all, s.phase.batch, Put(key, value));
    case WriteResults(completed) =>
      StoreGrows(all, s.store, s.phase.batch);
      CompletedLeave(all, Apply(s.store, s.phase.batch).Keys, completed);
      assert Next(s, step).store.Keys == Apply(s.store, s.phase.batch).Keys - completed;
    case CountOff =>
    case Restart =>
      CountPendingEmpty(all, |s.pending|);
  }

  lemma CountNone(all: bool)
    ensures CountIn(all, []) == 0
  {
  }

  lemma DueAreCounted(found: set<bytes>, max: int)
    requires max <= INT64_MAX && forall k | k in found :: IsTaskKey(k) && Timestamp(k) < max
    ensures forall k | k in found :: Counts(false, k)
  {
  }

  lemma {:induction false} RunKeeps(all: bool, threads: nat, steps: seq<Step>)
    requires Run(threads, steps).Some?
    requires all ==> Restart !in steps
    ensures Inv(all, Run(threads, steps).value)
  {
    hide Inv, Next, Enabled, Initial;
    if steps == [] {
      InitialInv(all, threads);
    } else {
      RunKeeps(all, threads, steps[..|steps| - 1]);
      StepKeeps(all, Run(threads, steps[..|steps| - 1]).value, steps[|steps| - 1]);
    }
  }

  lemma InitialInv(all: bool, threads: nat)
    ensures Inv(all, Initial(threads))
  {
    CountPendingEmpty(all, threads);
  }

  /** In every run, restarts included, the counter is never below what is about to be counted off,
      so it never underflows, and never below the number of stored tasks whose timestamp is not the
      largest one. Without a restart it is never below the number of stored tasks. */
  lemma CounterIsSafe(threads: nat, steps: seq<Step>)
    requires Run(threads, steps).Some?
    ensures var s := Run(threads, steps).value;
            && s.counter >= |Counted(false, s.store.Keys)| >= 0
            && (s.phase.Owing? ==> s.counter >= s.phase.completed)
            && (Restart !in steps ==> s.counter >= |s.store|)
  {
    hide Run;
    RunKeeps(false, threads, steps);
    if Restart !in steps {
      RunKeeps(true, threads, steps);
      assert Counted(true, Run(threads, steps).value.store.Keys) == Run(threads, steps).value.store.Keys;
    }
  }

  /** After a restart the counter covers all stored tasks exactly when none has the largest
      timestamp: the recount leaves those out. */
  lemma RestartCovers(s: State)
    requires WellFormed(s.store)
    ensures Next(s, Restart).counter >= |s.store| <==> forall k | k in s.store :: Timestamp(k) != INT64_MAX
  {
    var keys := s.store.Keys;
    var found := Counted(false, keys);
    assert found <= keys;
    if forall k | k in keys :: Timestamp(k) != INT64_MAX {
      AllBelow(keys);
      assert found == keys;
    } else {
      var k :| k in keys && Timestamp(k) == INT64_MAX;
      assert k !in found;
      SmallerSet(found, keys, k);
    }
  }

  lemma AllBelow(keys: set<bytes>)
    requires forall k | k in keys :: IsTaskKey(k) && Timestamp(k) != INT64_MAX
    ensures forall k | k in keys :: Counts(false, k)
  {
    hide Load, Pow256;
    Pow256Of8();
  }

  /** One more step at the end of a run. */
  lemma RunSnoc(s: State, steps: seq<Step>, step: Step)
    requires RunFrom(s, steps).Some? && Enabled(RunFrom(s, steps).value, step)
    ensures RunFrom(s, steps + [step]) == Some(Next(RunFrom(s, steps).value, step))
  {
    hide Next, Enabled;
    assert (steps + [step])[..|steps + [step]| - 1] == steps;
  }

  lemma RunEmpty(s: State)
    ensures RunFrom(s, []) == Some(s)
  {
  }

  lemma OnePut(store: Tasks, key: bytes, value: bytes)
    ensures Apply(store, [Put(key, value)]) == store[key := value]
  {
    assert [Put(key, value)][..0] == [];
  }

  /** Schedule and Commit one after the other, on a thread without an open batch. */
  lemma ScheduleRuns(s: State, steps: seq<Step>, thread: nat, key: bytes, value: bytes, ok: bool)
    requires IsTaskKey(key) && RunFrom(s, steps).Some?
    requires var t := RunFrom(s, steps).value; thread < |t.pending| && t.pending[thread] == []
    ensures var t := RunFrom(s, steps).value;
            RunFrom(s, steps + [Schedule(thread, key, value)] + [Commit(thread, ok)]) ==
              Some((if ok then Committed(t, [Put(key, value)]) else t).(counter := t.counter + 1))
  {
    hide RunFrom, IsTaskKey, Apply;
    var t, step := RunFrom(s, steps).value, Schedule(thread, key, value);
    RunSnoc(s, steps, step);
    var batch := [Put(key, value)];
    assert Next(t, step) == t.(counter := t.counter + 1, pending := t.pending[thread := batch]) by {
      assert [] + batch == batch;
    }
    assert t.pending[thread := batch][thread := []] == t.pending;
    RunSnoc(s, steps + [step], Commit(thread, ok));
  }

  /** The steps that store one task in an empty queue. */
  function UpToStored(task: ScheduledTask): seq<Step>
    requires ValidTask(task)
  {
    [] + [Schedule(0, Key(task), task.value)] + [Commit(0, true)]
  }

  lemma OneStored(task: ScheduledTask)
    requires ValidTask(task)
    ensures IsTaskKey(Key(task)) && Timestamp(Key(task)) == task.timestamp
    ensures var one := map[Key(task) := task.value];
            Run(1, UpToStored(task)) ==
              Some(State(one, 1, NoBatches(1), Idle, [Put(Key(task), task.value)], {}))
  {
    TaskOfKey(task);
    hide Key, IsTaskKey, Timestamp, RunFrom, Apply;
    RunEmpty(Initial(1));
    ScheduleRuns(Initial(1), [], 0, Key(task), task.value, true);
    assert [] + [Put(Key(task), task.value)] == [Put(Key(task), task.value)];
    OnePut(map[], Key(task), task.value);
  }

  /** Such a run: one task with the largest timestamp, written and then restarted over, is stored
      and not counted. */
  lemma LargestTimestampIsMissed(task: ScheduledTask)
    requires ValidTask(task) && task.timestamp == INT64_MAX
    ensures var run := Run(1, UpToStored(task) + [Restart]);
            run.Some? && run.value.counter == 0 && run.value.store == map[Key(task) := task.value]
  {
    OneStored(task);
    hide Key, IsTaskKey, Timestamp, RunFrom, UpToStored;
    RunSnoc(Initial(1), UpToStored(task), Restart);
    assert Counted(false, {Key(task)}) == {};
  }

  // ----- whether a committed task gets lost

  /** The last write of k is neither stored nor was it handed over and completed. */
  predicate Lost(s: State, k: bytes) {
    var i := LastWrite(s.log, k);
    i >= 0 && i !in s.delivered && !(k in s.store && s.log[i] == Put(k, s.store[k]))
  }

  ghost predicate Kept(s: State) {
    forall k: bytes :: !Lost(s, k)
  }

  /** Since the scan k has been written again, by a scheduler or in the processor's own batch. */
  ghost predicate Rewritten(phase: Phase, k: bytes)
    requires phase.Processing?
  {
    Touches(phase.meanwhile + phase.batch, k)
  }

  ghost predicate NoneRewritten(phase: Phase, completed: set<bytes>)
    requires phase.Processing?
  {
    forall k | k in completed :: !Rewritten(phase, k)
  }

  lemma TouchesEither(a: Batch<bytes>, b: Batch<bytes>, k: bytes)
    ensures Touches(a + b, k) <==> Touches(a, k) || Touches(b, k)
  {
    if Touches(a, k) {
      var i :| 0 <= i < |a| && a[i].key == k;
      assert (a + b)[i].key == k;
    }
    if Touches(b, k) {
      var i :| 0 <= i < |b| && b[i].key == k;
      assert (a + b)[|a| + i].key == k;
    }
    if !Touches(a, k) && !Touches(b, k) {
      TouchesAppend(a, b, k);
    }
  }

  lemma {:induction false} LastWriteAppend(a: Batch<bytes>, b: Batch<bytes>, k: bytes)
    ensures LastWrite(a + b, k) == if Touches(b, k) then |a| + LastWrite(b, k) else LastWrite(a, k)
    ensures Touches(b, k) <==> LastWrite(b, k) >= 0
  {
    if b == [] {
      assert a + b == a;
    } else {
      var init := b[..|b| - 1];
      assert (a + b)[..|a + b| - 1] == a + init;
      LastWriteAppend(a, init, k);
      assert b == init + [b[|b| - 1]];
      TouchesEither(init, [b[|b| - 1]], k);
    }
  }

  /** Under a key that a batch of puts names, the store holds the last of them. */
  lemma {:induction false} ApplyLast(store: Tasks, batch: Batch<bytes>, k: bytes)
    requires OnlyPuts(batch) && LastWrite(batch, k) >= 0
    ensures k in Apply(store, batch) && batch[LastWrite(batch, k)] == Put(k, Apply(store, batch)[k])
  {
    var init := batch[..|batch| - 1];
    if batch[|batch| - 1].key != k {
      ApplyLast(store, init, k);
    }
  }

  /** What is stored under k is the last write of k, and that has not been completed. */
  predicate IsCurrent(store: Tasks, log: Batch<bytes>, delivered: set<int>, k: bytes)
    requires k in store
  {
    var i := LastWrite(log, k);
    i >= 0 && i !in delivered && log[i] == Put(k, store[k])
  }

  ghost predicate StoreTracks(store: Tasks, log: Batch<bytes>, delivered: set<int>) {
    && (forall i | i in delivered :: 0 <= i < |log|)
    && (forall k | k in store :: IsCurrent(store, log, delivered, k))
  }

  /** The write handed over is still the last one exactly when nothing has been written since. */
  ghost predicate IsHanded(log: Batch<bytes>, i: int, k: bytes, meanwhile: Batch<bytes>) {
    && 0 <= i <= LastWrite(log, k) && log[i].key == k
    && (i == LastWrite(log, k) <==> !Touches(meanwhile, k))
  }

  ghost predicate HandedTracks(log: Batch<bytes>, handed: map<bytes, int>, meanwhile: Batch<bytes>) {
    forall k | k in handed :: IsHanded(log, handed[k], k, meanwhile)
  }

  ghost predicate Tracks(s: State) {
    && StoreTracks(s.store, s.log, s.delivered) && PutsEverywhere(s)
    && (s.phase.Processing? ==>
          && s.phase.handed.Keys == s.phase.scanned.Keys <= s.store.Keys
          && HandedTracks(s.log, s.phase.handed, s.phase.meanwhile))
  }

  lemma PutsKeepKeys(store: Tasks, batch: Batch<bytes>)
    requires OnlyPuts(batch)
    ensures store.Keys <= Apply(store, batch).Keys
  {
    StoreGrows(true, store, batch);
  }

  lemma WriteTracks(store: Tasks, log: Batch<bytes>, delivered: set<int>, batch: Batch<bytes>)
    requires StoreTracks(store, log, delivered) && OnlyPuts(batch)
    ensures StoreTracks(Apply(store, batch), log + batch, delivered)
  {
    hide Apply, LastWrite, Touches;
    var after := Apply(store, batch);
    forall k | k in after ensures IsCurrent(after, log + batch, delivered, k) {
      LastWriteAppend(log, batch, k);
      if Touches(batch, k) {
        ApplyLast(store, batch, k);
      } else {
        UntouchedKey(store, batch, k);
        assert IsCurrent(store, log, delivered, k);
      }
    }
  }

  lemma WriteTracksHanded(log: Batch<bytes>, handed: map<bytes, int>, meanwhile: Batch<bytes>, batch: Batch<bytes>)
    requires HandedTracks(log, handed, meanwhile)
    ensures HandedTracks(log + batch, handed, meanwhile + batch)
  {
    hide LastWrite, Touches;
    forall k | k in handed ensures IsHanded(log + batch, handed[k], k, meanwhile + batch) {
      assert IsHanded(log, handed[k], k, meanwhile);
      LastWriteAppend(log, batch, k);
      TouchesEither(meanwhile, batch, k);
    }
  }

  lemma CommitTracks(s: State, batch: Batch<bytes>)
    requires Tracks(s) && OnlyPuts(batch)
    ensures Tracks(Committed(s, batch))
  {
    hide Apply, LastWrite, StoreTracks, HandedTracks;
    WriteTracks(s.store, s.log, s.delivered, batch);
    PutsKeepKeys(s.store, batch);
    if s.phase.Processing? {
      WriteTracksHanded(s.log, s.phase.handed, s.phase.meanwhile, batch);
    }
  }

  lemma ScanTracks(s: State, found: set<bytes>)
    requires Tracks(s)
    ensures Tracks(s.(phase := Scanned(s, found)))
  {
    hide LastWrite;
    var phase := Scanned(s, found);
    forall k | k in phase.handed ensures IsHanded(s.log, phase.handed[k], k, []) {
      assert IsCurrent(s.store, s.log, s.delivered, k);
    }
  }

  lemma ResultsTrack(s: State, completed: set<bytes>)
    requires Tracks(s) && s.phase.Processing? && completed <= s.phase.scanned.Keys
    ensures Tracks(Finished(s, completed))
  {
    hide Apply, LastWrite, Touches;
    var batch, handed := s.phase.batch, s.phase.handed;
    WriteTracks(s.store, s.log, s.delivered, batch);
    WriteTracksHanded(s.log, handed, s.phase.meanwhile, batch);
    var after, log := Apply(s.store, batch), s.log + batch;
    forall k | k in after && k !in completed ensures LastWrite(log, k) !in HandedOver(handed, completed) {
      forall c | c in completed && c in handed ensures handed[c] != LastWrite(log, k) {
        assert IsHanded(log, handed[c], c, s.phase.meanwhile + batch);
        assert IsCurrent(after, log, s.delivered, k);
      }
    }
    var next := Finished(s, completed);
    forall k | k in next.store ensures IsCurrent(next.store, log, next.delivered, k) {
      assert IsCurrent(after, log, s.delivered, k);
    }
    forall i | i in HandedOver(handed, completed) ensures 0 <= i < |log| {
      var c :| c in completed && c in handed && handed[c] == i;
      assert IsHanded(log, handed[c], c, s.phase.meanwhile + batch);
    }
  }

  lemma StepTracks(s: State, step: Step)
    requires Tracks(s) && Enabled(s, step)
    ensures Tracks(Next(s, step))
  {
    hide Apply, LastWrite, StoreTracks, HandedTracks;
    match step
    case Commit(t, ok) =>
      CommitTracks(s, s.pending[t]);
    case Scan(_, found) =>
      ScanTracks(s, found);
    case WriteResults(completed) =>
      ResultsTrack(s, completed);
    case _ =>
  }

  lemma CommitLosesNothing(s: State, batch: Batch<bytes>)
    requires Kept(s) && OnlyPuts(batch)
    ensures Kept(Committed(s, batch))
  {
    hide Apply, LastWrite, Touches;
    forall k: bytes ensures !Lost(Committed(s, batch), k) {
      assert !Lost(s, k);
      WrittenOrAsBefore(s, batch, k);
    }
  }

  /** A batch of puts replaces the last write of the keys it names, with what is then stored, and
      leaves the other keys as they were. */
  lemma WrittenOrAsBefore(s: State, batch: Batch<bytes>, k: bytes)
    requires OnlyPuts(batch)
    ensures var i, after := LastWrite(s.log + batch, k), Apply(s.store, batch);
            if Touches(batch, k) then i >= |s.log| && k in after && (s.log + batch)[i] == Put(k, after[k])
            else i == LastWrite(s.log, k) && (k in after <==> k in s.store) && (k in after ==> after[k] == s.store[k])
  {
    hide Apply, LastWrite, Touches;
    LastWriteAppend(s.log, batch, k);
    if Touches(batch, k) {
      ApplyLast(s.store, batch, k);
    } else {
      UntouchedKey(s.store, batch, k);
    }
  }

  lemma OtherStepsLoseNothing(s: State, step: Step)
    requires Kept(s) && Tracks(s) && Enabled(s, step) && !step.WriteResults?
    ensures Kept(Next(s, step))
  {
    hide Apply, Counted, LastWrite, StoreTracks, HandedTracks;
    if step.Commit? && step.ok {
      CommitLosesNothing(s, s.pending[step.thread]);
    }
    forall k: bytes ensures !Lost(Next(s, step), k) {
      assert !Lost(s, k);
      if step.Commit? && step.ok {
        assert !Lost(Committed(s, s.pending[step.thread]), k);
      }
    }
  }

  lemma LostByResults(s: State, completed: set<bytes>, k: bytes)
    requires Kept(s) && Tracks(s) && s.phase.Processing? && completed <= s.phase.scanned.Keys
    ensures Lost(Finished(s, completed), k) <==> k in completed && Rewritten(s.phase, k)
  {
    hide Apply, LastWrite, Touches;
    var phase := s.phase;
    var log, i := s.log + phase.batch, LastWrite(s.log + phase.batch, k);
    assert !Lost(s, k);
    WrittenOrAsBefore(s, phase.batch, k);
    WriteTracksHanded(s.log, phase.handed, phase.meanwhile, phase.batch);
    if k in completed {
      assert IsHanded(log, phase.handed[k], k, phase.meanwhile + phase.batch);
      if Rewritten(phase, k) {
        assert IsCurrent(s.store, s.log, s.delivered, k);
        assert i !in s.delivered;
        forall c | c in completed && c in phase.handed ensures phase.handed[c] != i {
          assert IsHanded(log, phase.handed[c], c, phase.meanwhile + phase.batch);
        }
      } else {
        assert phase.handed[k] == i;
      }
    }
  }

  /** Writing the results loses exactly the completed tasks that were written again since the scan,
      be it with the value they had. */
  lemma ResultsLoseTheRewritten(s: State, completed: set<bytes>)
    requires Kept(s) && Tracks(s) && Enabled(s, WriteResults(completed))
    ensures forall k: bytes ::
              Lost(Next(s, WriteResults(completed)), k) <==> k in completed && Rewritten(s.phase, k)
    ensures Kept(Next(s, WriteResults(completed))) <==> NoneRewritten(s.phase, completed)
  {
    hide Lost, Tracks, Rewritten;
    forall k: bytes
      ensures Lost(Next(s, WriteResults(completed)), k) <==> k in completed && Rewritten(s.phase, k)
    {
      LostByResults(s, completed, k);
    }
  }

  ghost predicate AlwaysKept(threads: nat, steps: seq<Step>)
    requires Run(threads, steps).Some?
  {
    Kept(Run(threads, steps).value) && (steps == [] || AlwaysKept(threads, steps[..|steps| - 1]))
  }

  ghost predicate NeverRewritten(threads: nat, steps: seq<Step>)
    requires Run(threads, steps).Some?
  {
    steps == [] ||
    (var init, step := steps[..|steps| - 1], steps[|steps| - 1];
     && NeverRewritten(threads, init)
     && (step.WriteResults? ==> NoneRewritten(Run(threads, init).value.phase, step.completed)))
  }

  lemma {:induction false} RunTracks(threads: nat, steps: seq<Step>)
    requires Run(threads, steps).Some?
    ensures Tracks(Run(threads, steps).value)
  {
    hide Tracks, Next, Enabled;
    if steps == [] {
      InitialKept(threads);
    } else {
      RunTracks(threads, steps[..|steps| - 1]);
      StepTracks(Run(threads, steps[..|steps| - 1]).value, steps[|steps| - 1]);
    }
  }

  lemma InitialKept(threads: nat)
    ensures Tracks(Initial(threads)) && Kept(Initial(threads))
  {
  }

  /** Over every run, with failed writes and restarts: at every point the last write of every task is
      stored, or was handed over to a processor that has completed it, exactly when no processor
      completes a task that has been written again since it was scanned. */
  lemma {:induction false} NothingIsLost(threads: nat, steps: seq<Step>)
    requires Run(threads, steps).Some?
    ensures AlwaysKept(threads, steps) <==> NeverRewritten(threads, steps)
  {
    hide Kept, Next, NoneRewritten, Tracks;
    if steps == [] {
      InitialKept(threads);
    } else {
      var init, step := steps[..|steps| - 1], steps[|steps| - 1];
      NothingIsLost(threads, init);
      RunTracks(threads, init);
      var s := Run(threads, init).value;
      if AlwaysKept(threads, init) {
        if step.WriteResults? {
          ResultsLoseTheRewritten(s, step.completed);
        } else {
          OtherStepsLoseNothing(s, step);
        }
      }
    }
  }

  /** The steps up to a scan that finds the one stored task. */
  function UpToScan(task: ScheduledTask): seq<Step>
    requires ValidTask(task)
  {
    UpToStored(task) + [Scan(task.timestamp + 1, {Key(task)})]
  }

  lemma OneScanned(task: ScheduledTask)
    requires ValidTask(task) && task.timestamp < INT64_MAX
    ensures IsTaskKey(Key(task))
    ensures var one := map[Key(task) := task.value];
            var log := [Put(Key(task), task.value)];
            Run(1, UpToScan(task)) ==
              Some(State(one, 1, NoBatches(1), Processing(one, [], map[Key(task) := 0], []), log, {}))
  {
    OneStored(task);
    hide Key, IsTaskKey, Timestamp, RunFrom, UpToStored, Next, Enabled;
    ScanFindsOne(RunFrom(Initial(1), UpToStored(task)).value, Key(task), task.value, task.timestamp + 1);
    RunSnoc(Initial(1), UpToStored(task), Scan(task.timestamp + 1, {Key(task)}));
  }

  lemma ScanFindsOne(s: State, key: bytes, value: bytes, max: int)
    requires s.phase.Idle? && s.store == map[key := value] && s.log == [Put(key, value)]
    requires IsTaskKey(key) && Timestamp(key) < max <= INT64_MAX
    ensures Enabled(s, Scan(max, {key}))
    ensures Next(s, Scan(max, {key})) == s.(phase := Processing(s.store, [], map[key := 0], []))
  {
    hide IsTaskKey, Timestamp;
    assert Restricted(s.store, {key}) == s.store;
    assert LastWrite(s.log, key) == 0;
    assert Scanned(s, {key}).handed == map[key := 0];
  }

  /** The second write of a task that is handed over once. */
  lemma SecondWriteIsLost(s: State, key: bytes, value: bytes, again: bytes)
    requires s.phase.Processing? && s.phase.handed == map[key := 0] && s.delivered == {}
    requires s.log + s.phase.batch == [Put(key, value), Put(key, again)]
    requires Apply(s.store, s.phase.batch) == map[key := again]
    ensures Finished(s, {key}).store == map[] && Lost(Finished(s, {key}), key)
  {
    hide Apply;
    assert HandedOver(s.phase.handed, {key}) == {0};
    assert LastWrite(s.log + s.phase.batch, key) == 1;
  }

  /** A processor that schedules the task it completes once more under the same key, with whatever
      value, loses it: the delete comes after the put. */
  lemma RescheduledInPlaceIsLost(task: ScheduledTask, again: bytes)
    requires ValidTask(task) && task.timestamp < INT64_MAX
    ensures var run := Run(1, UpToScan(task) + [Reschedule(Key(task), again)] + [WriteResults({Key(task)})]);
            run.Some? && run.value.store == map[] && Lost(run.value, Key(task))
  {
    OneScanned(task);
    var key, s0, steps := Key(task), Initial(1), UpToScan(task);
    hide Key, IsTaskKey, RunFrom, UpToScan, Apply, Finished, LastWrite;
    var step := Reschedule(key, again);
    RunSnoc(s0, steps, step);
    var s := RunFrom(s0, steps + [step]).value;
    assert s.phase.batch == [Put(key, again)];
    RunSnoc(s0, steps + [step], WriteResults({key}));
    OnePut(s.store, key, again);
    SecondWriteIsLost(s, key, task.value, again);
  }

  /** So is a task that a scheduler writes under a scanned key before the results are written. */
  lemma CommittedMeanwhileIsLost(task: ScheduledTask, again: bytes)
    requires ValidTask(task) && task.timestamp < INT64_MAX
    ensures var k := Key(task);
            var run := Run(1, UpToScan(task) + [Schedule(0, k, again)] + [Commit(0, true)] + [WriteResults({k})]);
            run.Some? && run.value.store == map[] && Lost(run.value, k)
  {
    OneScanned(task);
    var key, s0, steps := Key(task), Initial(1), UpToScan(task);
    hide Key, IsTaskKey, RunFrom, UpToScan, Apply, Finished, LastWrite;
    ScheduleRuns(s0, steps, 0, key, again, true);
    steps := steps + [Schedule(0, key, again)] + [Commit(0, true)];
    var s := RunFrom(s0, steps).value;
    OnePut(map[key := task.value], key, again);
    assert s.store == map[key := again] && s.phase.batch == [];
    assert s.log + [] == [Put(key, task.value), Put(key, again)];
    assert Apply(s.store, []) == s.store by { NothingApplied(s.store); }
    RunSnoc(s0, steps, WriteResults({key}));
    SecondWriteIsLost(s, key, task.value, again);
  }

  lemma NothingApplied(store: Tasks)
    ensures Apply(store, []) == store
  {
  }

  // ----- the methods of the queue are these steps

  function Reschedules(tasks: seq<ScheduledTask>): (steps: seq<Step>)
    requires AllValid(tasks)
    ensures |steps| == |tasks|
    ensures forall i :: 0 <= i < |steps| ==> steps[i] == Reschedule(Key(tasks[i]), tasks[i].value)
  {
    seq(|tasks|, i requires 0 <= i < |tasks| => Reschedule(Key(tasks[i]), tasks[i].value))
  }

  /** One batch of the execution thread; without a due task it does nothing. */
  function BatchSteps(max: int, p: Processor, tasks: seq<ScheduledTask>): seq<Step>
    requires AllValid(tasks) && AllValid(p.schedules(tasks))
  {
    if tasks == [] then []
    else [Scan(max, ToSet(Keys(tasks)))] + Reschedules(p.schedules(tasks)) +
         [WriteResults(ToSet(Completed(p, tasks, |tasks|)))] + [CountOff]
  }

  lemma RescheduleStep(s: State, task: ScheduledTask)
    requires ValidTask(task) && s.phase.Processing?
    ensures var step := Reschedule(Key(task), task.value);
            && Enabled(s, step)
            && Next(s, step) == s.(counter := s.counter + 1,
                                   phase := s.phase.(batch := s.phase.batch + [Put(Key(task), task.value)]))
  {
    PutIsLater(task, task.timestamp);
  }

  lemma {:induction false} ReschedulesRun(s: State, steps: seq<Step>, tasks: seq<ScheduledTask>)
    requires AllValid(tasks) && RunFrom(s, steps).Some?
    requires var t := RunFrom(s, steps).value; t.phase.Processing? && t.phase.batch == []
    ensures var t := RunFrom(s, steps).value;
            RunFrom(s, steps + Reschedules(tasks)) ==
              Some(t.(counter := t.counter + |tasks|, phase := t.phase.(batch := Puts(tasks))))
  {
    hide Key, RunFrom, Next, Enabled;
    if tasks == [] {
      assert Puts(tasks) == [] && steps + Reschedules(tasks) == steps;
    } else {
      var init, last := tasks[..|tasks| - 1], tasks[|tasks| - 1];
      ReschedulesRun(s, steps, init);
      RescheduleStep(RunFrom(s, steps + Reschedules(init)).value, last);
      RunSnoc(s, steps + Reschedules(init), Reschedule(Key(last), last.value));
      assert steps + Reschedules(tasks) == steps + Reschedules(init) + [Reschedule(Key(last), last.value)];
      assert Puts(tasks) == Puts(init) + [Put(Key(last), last.value)];
    }
  }

  lemma OneMoreKey(keys: seq<bytes>, all: seq<bytes>, k: bytes, taken: bool)
    requires ToSet(keys) <= ToSet(all) && |ToSet(keys)| == |keys| && k !in all
    ensures var more := keys + if taken then [k] else [];
            ToSet(more) <= ToSet(all + [k]) && |ToSet(more)| == |more|
  {
    assert ToSet(all + [k]) == ToSet(all) + {k} && k !in ToSet(all);
    if taken {
      assert ToSet(keys + [k]) == ToSet(keys) + {k};
    } else {
      assert keys + [] == keys;
    }
  }

  lemma {:induction false} CompletedAreScanned(p: Processor, tasks: seq<ScheduledTask>, n: nat)
    requires AllValid(tasks) && n <= |tasks| && Ascending(Keys(tasks))
    ensures var keys := Completed(p, tasks, n);
            ToSet(keys) <= ToSet(Keys(tasks)[..n]) && |ToSet(keys)| == |keys|
  {
    if n > 0 {
      hide Key, Less, Ascending, ToSet;
      CompletedAreScanned(p, tasks, n - 1);
      var all := Keys(tasks);
      NextIsNew(all, n - 1);
      assert all[..n] == all[..n - 1] + [all[n - 1]];
      OneMoreKey(Completed(p, tasks, n - 1), all[..n - 1], all[n - 1], p.completes(tasks, n - 1));
    }
  }

  /** What one call of BatchProcessing does to the store and the counter, according to its contract,
      is what the steps do when nothing comes between them. */
  lemma BatchProcessingIsSteps(s: State, max: int, limit: nat, p: Processor, tasks: seq<ScheduledTask>)
    requires s.phase.Idle? && max <= INT64_MAX && IsTaskScan(s.store, max, limit, tasks)
    requires AllValid(p.schedules(tasks))
    ensures var after := RunFrom(s, BatchSteps(max, p, tasks));
            && after.Some? && after.value.phase.Idle? && after.value.pending == s.pending
            && after.value.store == (if tasks == [] then s.store else Apply(s.store, ProcessingBatch(p, tasks)))
            && after.value.counter == s.counter +
                 if tasks == [] then 0 else |p.schedules(tasks)| - |Completed(p, tasks, |tasks|)|
  {
    hide Key, Apply, RunFrom, Less, Ascending, Completed, HandedOver, LastWrite;
    RunEmpty(s);
    if tasks != [] {
      var keys, done := Keys(tasks), Completed(p, tasks, |tasks|);
      var scan, write := Scan(max, ToSet(keys)), WriteResults(ToSet(done));
      var puts := p.schedules(tasks);
      assert forall i :: 0 <= i < |keys| ==> keys[i] in s.store && Due(keys[i], max);
      RunSnoc(s, [], scan);
      assert [] + [scan] == [scan];
      ReschedulesRun(s, [scan], puts);
      var scanned := RunFrom(s, [scan] + Reschedules(puts)).value;
      CompletedAreScanned(p, tasks, |tasks|);
      assert keys[..|tasks|] == keys;
      assert ToSet(keys) <= scanned.phase.scanned.Keys;
      RunSnoc(s, [scan] + Reschedules(puts), write);
      RunSnoc(s, [scan] + Reschedules(puts) + [write], CountOff);
      ApplyAppend(s.store, Puts(puts), Deletes(done));
      ApplyDeletes(Apply(s.store, Puts(puts)), done);
    }
  }

  /** Likewise for Schedule, on a thread without an open batch. */
  lemma ScheduleIsSteps(s: State, thread: nat, task: ScheduledTask, ok: bool)
    requires ValidTask(task) && thread < |s.pending| && s.pending[thread] == []
    ensures var after := RunFrom(s, [Schedule(thread, Key(task), task.value)] + [Commit(thread, ok)]);
            && after.Some? && after.value.pending == s.pending
            && after.value.store == (if ok then s.store[Key(task) := task.value] else s.store)
            && after.value.counter == s.counter + 1
  {
    PutIsLater(task, task.timestamp);
    hide Key, RunFrom, IsTaskKey, Apply;
    RunEmpty(s);
    ScheduleRuns(s, [], thread, Key(task), task.value, ok);
    OnePut(s.store, Key(task), task.value);
    assert [] + [Schedule(thread, Key(task), task.value)] == [Schedule(thread, Key(task), task.value)];
  }
}
