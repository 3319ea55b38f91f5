/**
 The durable queue of scheduled tasks (infra/ScheduledTaskQueue), as one thread sees it: scheduling,
 the bounded scan, one batch of processing, and the loop that drains what is due.
 */
module TaskQueues {
  import opened Bytes
  import opened Databases
  import opened TaskKeys
  import opened TaskRounds

  /** The column family of the queue. */
  type Tasks = Store<bytes>

  predicate WellFormed(store: Tasks) {
    forall k | k in store :: IsTaskKey(k)
  }

  predicate Due(k: bytes, max: int) {
    IsTaskKey(k) && Timestamp(k) < max
  }

  predicate AllValid(tasks: seq<ScheduledTask>) {
    forall i :: 0 <= i < |tasks| ==> ValidTask(tasks[i])
  }

  function Keys(tasks: seq<ScheduledTask>): (keys: seq<bytes>)
    requires AllValid(tasks)
    ensures |keys| == |tasks| && forall i :: 0 <= i < |keys| ==> keys[i] == Key(tasks[i])
  {
    seq(|tasks|, i requires 0 <= i < |tasks| => Key(tasks[i]))
  }

  // ----- what a scan should return

  ghost predicate Ascending(keys: seq<bytes>) {
    forall i, j :: 0 <= i < j < |keys| ==> Less(keys[i], keys[j])
  }

  ghost predicate Above(keys: seq<bytes>, k: bytes) {
    forall i :: 0 <= i < |keys| ==> Less(keys[i], k)
  }

  /** `keys` are, in order, the first `limit` stored keys due before `max`; all of them when limit
      is 0. */
  ghost predicate IsScan(store: Tasks, max: int, limit: nat, keys: seq<bytes>) {
    && Ascending(keys)
    && (forall i :: 0 <= i < |keys| ==> keys[i] in store && Due(keys[i], max))
    && (limit == 0 || |keys| <= limit)
    && (forall k | k in store && Due(k, max) && k !in keys :: 0 < limit == |keys| && Above(keys, k))
  }

  ghost predicate IsTaskScan(store: Tasks, max: int, limit: nat, tasks: seq<ScheduledTask>) {
    && AllValid(tasks)
    && IsScan(store, max, limit, Keys(tasks))
    && (forall i :: 0 <= i < |tasks| ==> store[Keys(tasks)[i]] == tasks[i].value)
  }

  /** A scan is in the order of (timestamp, data key), and holds nothing that is not due. */
  lemma ScanOrder(store: Tasks, max: int, limit: nat, tasks: seq<ScheduledTask>)
    requires IsTaskScan(store, max, limit, tasks)
    ensures forall i, j :: 0 <= i < j < |tasks| ==> Before(tasks[i], tasks[j])
    ensures forall i :: 0 <= i < |tasks| ==> tasks[i].timestamp < max
  {
    hide Key;
    forall i, j | 0 <= i < j < |tasks| ensures Before(tasks[i], tasks[j]) {
      assert Less(Keys(tasks)[i], Keys(tasks)[j]);
      KeyOrder(tasks[i], tasks[j]);
    }
    forall i | 0 <= i < |tasks| ensures tasks[i].timestamp < max {
      assert Due(Keys(tasks)[i], max);
      TaskOfKey(tasks[i]);
    }
  }

  /** There is only one scan. */
  lemma {:induction false} ScanIsUnique(store: Tasks, max: int, limit: nat, a: seq<bytes>, b: seq<bytes>)
    requires IsScan(store, max, limit, a) && IsScan(store, max, limit, b)
    ensures a == b
  {
    var n := if |a| < |b| then |a| else |b|;
    var i := 0;
    while i < n
      invariant 0 <= i <= n && a[..i] == b[..i]
    {
      SameNext(store, max, limit, a, b, i);
      i := i + 1;
    }
    if |a| <= |b| {
      NoMore(store, max, limit, a, b);
    } else {
      NoMore(store, max, limit, b, a);
    }
  }

  lemma NotEarlier(store: Tasks, max: int, limit: nat, a: seq<bytes>, b: seq<bytes>, i: nat)
    requires IsScan(store, max, limit, a) && IsScan(store, max, limit, b)
    requires i < |a| && i < |b| && a[..i] == b[..i]
    ensures !Less(a[i], b[i])
  {
    if Less(a[i], b[i]) {
      if a[i] in b {
        var j :| 0 <= j < |b| && b[j] == a[i];
        if j < i {
          assert b[j] == b[..i][j] == a[..i][j] == a[j];
          LessIrreflexive(a[i]);
        } else if j > i {
          LessTransitive(a[i], b[i], b[j]);
          LessIrreflexive(a[i]);
        } else {
          LessIrreflexive(a[i]);
        }
      } else {
        assert Above(b, a[i]);
        LessTransitive(a[i], b[i], a[i]);
        LessIrreflexive(a[i]);
      }
    }
  }

  lemma SameNext(store: Tasks, max: int, limit: nat, a: seq<bytes>, b: seq<bytes>, i: nat)
    requires IsScan(store, max, limit, a) && IsScan(store, max, limit, b)
    requires i < |a| && i < |b| && a[..i] == b[..i]
    ensures a[..i + 1] == b[..i + 1]
  {
    NotEarlier(store, max, limit, a, b, i);
    NotEarlier(store, max, limit, b, a, i);
    LessTotal(a[i], b[i]);
    assert a[..i + 1] == a[..i] + [a[i]] && b[..i + 1] == b[..i] + [b[i]];
  }

  lemma NextIsNew(keys: seq<bytes>, n: nat)
    requires Ascending(keys) && n < |keys|
    ensures keys[n] !in keys[..n]
  {
    LessIrreflexive(keys[n]);
  }

  lemma NoMore(store: Tasks, max: int, limit: nat, a: seq<bytes>, b: seq<bytes>)
    requires IsScan(store, max, limit, a) && IsScan(store, max, limit, b)
    requires a <= b
    ensures a == b
  {
    if |a| < |b| {
      NextIsNew(b, |a|);
    }
  }

  // ----- batches

  function Puts(tasks: seq<ScheduledTask>): (b: Batch<bytes>)
    requires AllValid(tasks)
    ensures |b| == |tasks| && forall i :: 0 <= i < |b| ==> b[i] == Put(Key(tasks[i]), tasks[i].value)
  {
    seq(|tasks|, i requires 0 <= i < |tasks| => Put(Key(tasks[i]), tasks[i].value))
  }

  function Deletes(keys: seq<bytes>): (b: Batch<bytes>)
    ensures |b| == |keys| && forall i :: 0 <= i < |b| ==> b[i] == Delete(keys[i])
  {
    seq(|keys|, i requires 0 <= i < |keys| => Delete(keys[i]))
  }

  function Completed(p: Processor, tasks: seq<ScheduledTask>, n: nat): (keys: seq<bytes>)
    requires AllValid(tasks) && n <= |tasks|
    ensures |keys| <= n
  {
    if n == 0 then []
    else Completed(p, tasks, n - 1) + if p.completes(tasks, n - 1) then [Key(tasks[n - 1])] else []
  }

  ghost predicate SchedulesValid(p: Processor) {
    forall tasks: seq<ScheduledTask> :: AllValid(p.schedules(tasks))
  }

  function ProcessingBatch(p: Processor, tasks: seq<ScheduledTask>): Batch<bytes>
    requires AllValid(tasks) && AllValid(p.schedules(tasks))
  {
    Puts(p.schedules(tasks)) + Deletes(Completed(p, tasks, |tasks|))
  }

  const SCAN_BATCH_SIZE: nat := 10000

  class ScheduledTaskQueue {
    const db: Database<bytes>
    const scanBatchSize: nat
    var outstandingTaskCount: int

    constructor (db: Database<bytes>, maxBatchSize: nat)
      ensures this.db == db && outstandingTaskCount == 0
      ensures scanBatchSize == if maxBatchSize < 10000 then maxBatchSize else 10000
    {
      this.db := db;
      scanBatchSize := if maxBatchSize < SCAN_BATCH_SIZE then maxBatchSize else SCAN_BATCH_SIZE;
      outstandingTaskCount := 0;
    }

    /** Counted when put into the batch, before the batch is written. */
    method ScheduleWithWriteBatch(tasks: seq<ScheduledTask>, batch: Batch<bytes>) returns (extended: Batch<bytes>)
      requires AllValid(tasks)
      modifies this`outstandingTaskCount
      ensures extended == batch + Puts(tasks)
      ensures outstandingTaskCount == old(outstandingTaskCount) + |tasks|
    {
      extended := batch;
      for i := 0 to |tasks|
        invariant extended == batch + Puts(tasks)[..i]
        invariant outstandingTaskCount == old(outstandingTaskCount) + i
      {
        extended := extended + [Put(Key(tasks[i]), tasks[i].value)];
        outstandingTaskCount := outstandingTaskCount + 1;
      }
    }

    method Schedule(task: ScheduledTask, ok: bool) returns (scheduled: bool)
      requires ValidTask(task)
      modifies this`outstandingTaskCount, db
      ensures scheduled == ok
      ensures db.contents == if ok then old(db.contents)[Key(task) := task.value] else old(db.contents)
      ensures outstandingTaskCount == old(outstandingTaskCount) + 1
    {
      var batch := ScheduleWithWriteBatch([task], []);
      assert batch == [Put(Key(task), task.value)] && batch[..0] == [];
      db.Write(batch, ok);
      return ok;
    }

    /** The iterator: the least stored key below the bound and after the given one. */
    method Seek(after: Option<bytes>, bound: bytes) returns (next: Option<bytes>)
      ensures next.Some? ==> next.value in db.contents && InRange(after, next.value, bound)
      ensures forall k | k in db.contents && InRange(after, k, bound) ::
                next.Some? && (k == next.value || Less(next.value, k))
    {
      next := None;
      var left := db.contents.Keys;
      while left != {}
        invariant left <= db.contents.Keys
        invariant next.Some? ==> next.value in db.contents && InRange(after, next.value, bound)
        invariant forall k | k in db.contents && k !in left && InRange(after, k, bound) ::
                    next.Some? && (k == next.value || Less(next.value, k))
        decreases left
      {
        var k :| k in left;
        if InRange(after, k, bound) && (next.None? || Less(k, next.value)) {
          ghost var was := next;
          next := Some(k);
          forall j | j in db.contents && j !in left && InRange(after, j, bound) ensures j == k || Less(k, j) {
            if was.Some? && Less(was.value, j) {
              LessTransitive(k, was.value, j);
            }
          }
        } else if InRange(after, k, bound) {
          LessTotal(k, next.value);
        }
        left := left - {k};
      }
    }

    method ScanPendingTasks(max: int, limit: nat) returns (tasks: seq<ScheduledTask>)
      requires WellFormed(db.contents) && 0 <= max <= INT64_MAX
      ensures IsTaskScan(db.contents, max, limit, tasks)
    {
      hide Less, IsTaskKey, Timestamp, Key;
      var bound := EncodeTimestamp(max);
      tasks := [];
      var key := Seek(None, bound);
      ghost var keys: seq<bytes> := [];
      while key.Some? && (limit == 0 || |tasks| < limit)
        invariant AllValid(tasks) && keys == Keys(tasks) && Ascending(keys)
        invariant limit == 0 || |tasks| <= limit
        invariant forall i :: 0 <= i < |keys| ==>
                    keys[i] in db.contents && Due(keys[i], max) && db.contents[keys[i]] == tasks[i].value
        invariant key.Some? ==> key.value in db.contents && Less(key.value, bound) && Above(keys, key.value)
        invariant Rest(keys, key, bound)
        decreases |db.contents| - |keys|
      {
        var k := key.value;
        KeyIsNew(keys, k);
        DistinctKeys(keys + [k]);
        SubsetSize(ToSet(keys + [k]), db.contents.Keys);
        var task := TaskOf(k, db.contents[k]);
        KeyOfTask(k, db.contents[k]);
        BoundIsExclusive(task, max);
        TaskOfKey(task);
        key := Seek(Some(k), bound);
        AdvanceRest(keys, k, key, bound);
        AboveNext(keys, k, key);
        tasks := tasks + [task];
        keys := keys + [k];
      }
      RestIsScan(tasks, key, max, limit);
    }

    /** Every stored key below the bound has been passed, is the current one, or lies after it. */
    ghost predicate Rest(keys: seq<bytes>, key: Option<bytes>, bound: bytes)
      reads db
    {
      forall k | k in db.contents && Less(k, bound) && k !in keys ::
        key.Some? && Above(keys, k) && (k == key.value || Less(key.value, k))
    }

    lemma AdvanceRest(keys: seq<bytes>, k: bytes, next: Option<bytes>, bound: bytes)
      requires Rest(keys, Some(k), bound) && Above(keys, k)
      requires next.Some? ==> Less(k, next.value)
      requires forall j | j in db.contents && InRange(Some(k), j, bound) ::
                 next.Some? && (j == next.value || Less(next.value, j))
      ensures Rest(keys + [k], next, bound)
    {
      hide Less;
      forall j | j in db.contents && Less(j, bound) && j !in keys + [k]
        ensures next.Some? && Above(keys + [k], j) && (j == next.value || Less(next.value, j))
      {
        assert j !in keys && j != k;
        assert Less(k, j);
        assert InRange(Some(k), j, bound);
      }
    }

    lemma RestIsScan(tasks: seq<ScheduledTask>, key: Option<bytes>, max: int, limit: nat)
      requires WellFormed(db.contents) && 0 <= max <= INT64_MAX && AllValid(tasks)
      requires var keys := Keys(tasks);
               && Ascending(keys) && (limit == 0 || |keys| <= limit)
               && (forall i :: 0 <= i < |keys| ==>
                     keys[i] in db.contents && Due(keys[i], max) && db.contents[keys[i]] == tasks[i].value)
               && Rest(keys, key, EncodeTimestamp(max))
      requires key.None? || (limit > 0 && |tasks| >= limit)
      ensures IsTaskScan(db.contents, max, limit, tasks)
    {
      hide Less, Key;
      var keys := Keys(tasks);
      forall k | k in db.contents && Due(k, max) && k !in keys ensures 0 < limit == |keys| && Above(keys, k) {
        KeyOfTask(k, db.contents[k]);
        BoundIsExclusive(TaskOf(k, db.contents[k]), max);
      }
    }

    /** One batch: scan, process, write everything in one batch, count the completed tasks off. A
        failed write ends the process. */
    method BatchProcessing(max: int, p: Processor) returns (tasks: seq<ScheduledTask>)
      requires WellFormed(db.contents) && 0 <= max <= INT64_MAX && SchedulesValid(p)
      modifies this`outstandingTaskCount, db
      ensures IsTaskScan(old(db.contents), max, scanBatchSize, tasks)
      ensures db.contents == if tasks == [] then old(db.contents)
                             else Apply(old(db.contents), ProcessingBatch(p, tasks))
      ensures outstandingTaskCount == old(outstandingTaskCount) +
                if tasks == [] then 0 else |p.schedules(tasks)| - |Completed(p, tasks, |tasks|)|
    {
      tasks := ScanPendingTasks(max, scanBatchSize);
      if |tasks| > 0 {
        hide IsTaskScan, Apply, Key;
        var batch := ScheduleWithWriteBatch(p.schedules(tasks), []);
        var numCompleted := 0;
        ghost var keys: seq<bytes> := [];
        assert batch == Puts(p.schedules(tasks)) + Deletes([]);
        for i := 0 to |tasks|
          invariant keys == Completed(p, tasks, i) && numCompleted == |keys|
          invariant batch == Puts(p.schedules(tasks)) + Deletes(keys)
        {
          if p.completes(tasks, i) {
            numCompleted := numCompleted + 1;
            assert Deletes(keys) + [Delete(Key(tasks[i]))] == Deletes(keys + [Key(tasks[i])]);
            batch := batch + [Delete(Key(tasks[i]))];
            keys := keys + [Key(tasks[i])];
          }
        }
        db.Write(batch, true);
        outstandingTaskCount := outstandingTaskCount - numCompleted;
      }
    }

    /** The inner loop of the execution thread, on the tasks `due` before it. `handed` is what the
        processor was given, batch after batch, and `rescheduled` what it scheduled meanwhile. The loop
        ends unless it comes to a full batch of which nothing is completed. */
    method Drain(max: int, p: Processor, ghost due: seq<ScheduledTask>)
      returns (handed: seq<ScheduledTask>, rescheduled: seq<ScheduledTask>, ghost rounds: nat)
      requires WellFormed(db.contents) && 0 <= max <= INT64_MAX && SchedulesLater(p, max)
      requires IsTaskScan(db.contents, max, 0, due) && !Spins(p, scanBatchSize, due)
      modifies this`outstandingTaskCount, db
      ensures GoesOnUpTo(p, scanBatchSize, due, rounds) && !GoesOn(scanBatchSize, After(p, scanBatchSize, due, rounds))
      ensures handed == Handed(p, scanBatchSize, due, rounds + 1)
      ensures IsTaskScan(db.contents, max, 0, After(p, scanBatchSize, due, rounds + 1))
      ensures AllValid(rescheduled)
      ensures Later(db.contents, max) == Apply(Later(old(db.contents), max), Puts(rescheduled))
      ensures outstandingTaskCount ==
              old(outstandingTaskCount) + |rescheduled| - (|due| - |After(p, scanBatchSize, due, rounds + 1)|)
      ensures CompletesAll(p) ==>
                && handed == due && (forall k | k in db.contents :: !Due(k, max))
                && db.contents == Apply(Later(old(db.contents), max), Puts(rescheduled))
    {
      hide IsTaskScan, Apply, Key, IsTaskKey, Timestamp, Less, First, Rest, Stuck;
      ghost var store, limit := db.contents, scanBatchSize;
      handed, rescheduled, rounds := [], [], 0;
      assert Apply(Later(store, max), Puts([])) == Later(store, max) by { NoPuts(Later(store, max)); }
      while true
        invariant WellFormed(db.contents) && AllValid(rescheduled)
        invariant GoesOnUpTo(p, limit, due, rounds) && handed == Handed(p, limit, due, rounds)
        invariant IsTaskScan(db.contents, max, 0, After(p, limit, due, rounds))
        invariant Later(db.contents, max) == Apply(Later(store, max), Puts(rescheduled))
        invariant outstandingTaskCount ==
                  old(outstandingTaskCount) + |rescheduled| - (|due| - |After(p, limit, due, rounds)|)
        decreases |After(p, limit, due, rounds)|
      {
        ghost var here, list := db.contents, After(p, limit, due, rounds);
        var tasks := BatchProcessing(max, p);
        BatchOnList(here, max, p, limit, list, tasks);
        if tasks != [] {
          PutsAppend(Later(store, max), rescheduled, p.schedules(tasks));
          rescheduled := rescheduled + p.schedules(tasks);
        }
        handed := handed + tasks;
        if |tasks| != scanBatchSize {
          if CompletesAll(p) {
            CompletesAllDrains(p, limit, due);
            assert After(p, limit, due, rounds + 1) == [];
            NothingDue(db.contents, max);
          }
          return;
        }
        assert !Stuck(p, limit, list);
        RestShrinks(p, limit, list);
        rounds := rounds + 1;
      }
    }
  }

  predicate InRange(after: Option<bytes>, k: bytes, bound: bytes) {
    Less(k, bound) && (after.None? || Less(after.value, k))
  }

  lemma KeyIsNew(keys: seq<bytes>, k: bytes)
    requires Ascending(keys) && Above(keys, k)
    ensures k !in keys && Ascending(keys + [k])
  {
    LessIrreflexive(k);
    hide Less;
  }

  lemma AboveNext(keys: seq<bytes>, k: bytes, next: Option<bytes>)
    requires Above(keys, k) && (next.Some? ==> Less(k, next.value))
    ensures next.Some? ==> Above(keys + [k], next.value)
  {
    if next.Some? {
      forall i | 0 <= i < |keys + [k]| ensures Less((keys + [k])[i], next.value) {
        if i < |keys| {
          LessTransitive(keys[i], k, next.value);
        }
      }
    }
  }

  lemma {:induction false} DistinctKeys(keys: seq<bytes>)
    requires Ascending(keys)
    ensures |ToSet(keys)| == |keys|
  {
    if keys != [] {
      var init, last := keys[..|keys| - 1], keys[|keys| - 1];
      DistinctKeys(init);
      LessIrreflexive(last);
      assert last !in init;
      assert ToSet(keys) == ToSet(init) + {last};
    }
  }

  // ----- draining

  /** No due task arrives through the processor. */
  ghost predicate SchedulesLater(p: Processor, max: int) {
    forall tasks: seq<ScheduledTask> :: AllValid(p.schedules(tasks)) && AllLater(p.schedules(tasks), max)
  }

  predicate AllLater(tasks: seq<ScheduledTask>, max: int) {
    forall i :: 0 <= i < |tasks| ==> tasks[i].timestamp >= max
  }

  /** The tasks that are not due. */
  function Later(store: Tasks, max: int): Tasks {
    map k | k in store && !Due(k, max) :: store[k]
  }

  lemma {:induction false} ApplyDeletes(store: Tasks, keys: seq<bytes>)
    ensures Apply(store, Deletes(keys)) == store - ToSet(keys)
  {
    if keys == [] {
      assert Deletes(keys) == [];
      assert store - ToSet(keys) == store;
    } else {
      var init, last := keys[..|keys| - 1], keys[|keys| - 1];
      assert Deletes(keys)[..|keys| - 1] == Deletes(init);
      ApplyDeletes(store, init);
      assert ToSet(keys) == ToSet(init) + {last};
    }
  }

  lemma PutIsLater(t: ScheduledTask, max: int)
    requires ValidTask(t) && t.timestamp >= max
    ensures IsTaskKey(Key(t)) && !Due(Key(t), max)
  {
    TaskOfKey(t);
  }

  lemma {:induction false} ApplyPuts(store: Tasks, tasks: seq<ScheduledTask>, max: int)
    requires AllValid(tasks) && AllLater(tasks, max) && WellFormed(store)
    ensures var after := Apply(store, Puts(tasks));
            && WellFormed(after)
            && (forall k | Due(k, max) :: (k in after <==> k in store) && (k in store ==> after[k] == store[k]))
            && Later(after, max) == Apply(Later(store, max), Puts(tasks))
  {
    hide Due, IsTaskKey, Key;
    if tasks == [] {
      assert Puts(tasks) == [];
    } else {
      var init, last := tasks[..|tasks| - 1], tasks[|tasks| - 1];
      assert Puts(tasks)[..|tasks| - 1] == Puts(init);
      ApplyPuts(store, init, max);
      PutIsLater(last, max);
      LaterPut(Apply(store, Puts(init)), Key(last), last.value, max);
    }
  }

  lemma LaterPut(store: Tasks, k: bytes, value: bytes, max: int)
    requires !Due(k, max)
    ensures Later(store[k := value], max) == Later(store, max)[k := value]
  {
    hide Due;
  }

  /** One batch takes exactly the completed tasks away and leaves the other due tasks alone; the tasks
      that are not due change only by the processor's puts. */
  lemma BatchEffect(store: Tasks, max: int, p: Processor, tasks: seq<ScheduledTask>, limit: nat)
    requires WellFormed(store) && SchedulesLater(p, max) && IsTaskScan(store, max, limit, tasks)
    ensures var after, done := Apply(store, ProcessingBatch(p, tasks)), Completed(p, tasks, |tasks|);
            && WellFormed(after)
            && (forall k | Due(k, max) ::
                  (k in after <==> k in store && k !in done) && (k in after ==> after[k] == store[k]))
            && Later(after, max) == Apply(Later(store, max), Puts(p.schedules(tasks)))
  {
    hide Due, IsTaskKey, Key, Apply, Less;
    var keys, done := Keys(tasks), Completed(p, tasks, |tasks|);
    CompletedAndLeft(p, tasks, |tasks|);
    assert keys[..|tasks|] == keys;
    forall i | 0 <= i < |done| ensures Due(done[i], max) {
      assert done[i] in keys;
    }
    var puts := p.schedules(tasks);
    ApplyAppend(store, Puts(puts), Deletes(done));
    var mid := Apply(store, Puts(puts));
    ApplyPuts(store, puts, max);
    ApplyDeletes(mid, done);
    LaterDelete(mid, done, max);
  }

  lemma {:induction false} CompletedAndLeft(p: Processor, tasks: seq<ScheduledTask>, n: nat)
    requires AllValid(tasks) && n <= |tasks|
    ensures AllValid(Left(p, tasks, n)) && |Left(p, tasks, n)| + |Completed(p, tasks, n)| == n
    ensures forall k | k in Completed(p, tasks, n) :: k in Keys(tasks)[..n]
  {
    hide Key;
    if n > 0 {
      CompletedAndLeft(p, tasks, n - 1);
      assert Keys(tasks)[..n] == Keys(tasks)[..n - 1] + [Key(tasks[n - 1])];
    }
  }

  lemma KeysSnoc(tasks: seq<ScheduledTask>, t: ScheduledTask)
    requires AllValid(tasks) && ValidTask(t)
    ensures AllValid(tasks + [t]) && Keys(tasks + [t]) == Keys(tasks) + [Key(t)]
  {
    hide Key;
  }

  lemma OneMoreLeft(left: seq<bytes>, done: seq<bytes>, all: seq<bytes>, x: bytes, k: bytes, completed: bool)
    requires (k in left <==> k in all && k !in done) && x !in all && (k in done ==> k in all)
    ensures k in left + (if completed then [] else [x]) <==>
            k in all + [x] && k !in done + if completed then [x] else []
  {
  }

  /** Each of the first n tasks is either completed, and deleted, or left. */
  lemma {:induction false} CompletedOrLeft(p: Processor, tasks: seq<ScheduledTask>, n: nat, k: bytes)
    requires AllValid(tasks) && n <= |tasks| && Ascending(Keys(tasks))
    ensures AllValid(Left(p, tasks, n))
    ensures k in Keys(Left(p, tasks, n)) <==> k in Keys(tasks)[..n] && k !in Completed(p, tasks, n)
  {
    hide Key, Ascending;
    CompletedAndLeft(p, tasks, n);
    if n > 0 {
      CompletedOrLeft(p, tasks, n - 1, k);
      CompletedAndLeft(p, tasks, n - 1);
      var all, left, done := Keys(tasks), Left(p, tasks, n - 1), Completed(p, tasks, n - 1);
      NextIsNew(all, n - 1);
      OneMoreLeft(Keys(left), done, all[..n - 1], all[n - 1], k, p.completes(tasks, n - 1));
      KeysSnoc(left, tasks[n - 1]);
      assert all[..n] == all[..n - 1] + [all[n - 1]];
      assert left + [] == left && Keys(left) + [] == Keys(left) && done + [] == done;
    }
  }

  lemma LaterDelete(store: Tasks, keys: seq<bytes>, max: int)
    requires forall i :: 0 <= i < |keys| ==> Due(keys[i], max)
    ensures Later(store - ToSet(keys), max) == Later(store, max)
  {
    hide Due;
  }

  lemma AscendingConcat(a: seq<bytes>, b: seq<bytes>)
    requires Ascending(a) && Ascending(b) && forall j :: 0 <= j < |b| ==> Above(a, b[j])
    ensures Ascending(a + b)
  {
    hide Less;
    var c := a + b;
    forall i, j | 0 <= i < j < |c| ensures Less(c[i], c[j]) {
      if i < |a| && j >= |a| {
        assert Above(a, b[j - |a|]);
      } else if i >= |a| {
        assert Less(b[i - |a|], b[j - |a|]);
      }
    }
  }

  /** What is left of an ascending batch is ascending, and below whatever was above the batch. */
  lemma {:induction false} LeftAscends(p: Processor, tasks: seq<ScheduledTask>, n: nat)
    requires AllValid(tasks) && n <= |tasks| && Ascending(Keys(tasks))
    ensures AllValid(Left(p, tasks, n)) && Ascending(Keys(Left(p, tasks, n)))
    ensures forall k | Above(Keys(tasks)[..n], k) :: Above(Keys(Left(p, tasks, n)), k)
  {
    hide Key, Less;
    if n > 0 {
      LeftAscends(p, tasks, n - 1);
      var left, t, keys := Left(p, tasks, n - 1), tasks[n - 1], Keys(tasks);
      assert keys[..n] == keys[..n - 1] + [Key(t)];
      assert Above(keys[..n - 1], Key(t));
      assert Keys(left + [t]) == Keys(left) + [Key(t)];
      var upTo, before := keys[..n], keys[..n - 1];
      forall k | Above(upTo, k) ensures Above(before, k) && Less(Key(t), k) {
        assert forall i :: 0 <= i < n - 1 ==> before[i] == upTo[i];
        assert upTo[n - 1] == Key(t);
      }
      if !p.completes(tasks, n - 1) {
        AscendingConcat(Keys(left), [Key(t)]);
      }
    }
  }

  lemma {:induction false} SameKeysSameTasks(a: seq<ScheduledTask>, b: seq<ScheduledTask>)
    requires AllValid(a) && AllValid(b) && Keys(a) == Keys(b)
    requires forall i :: 0 <= i < |a| ==> a[i].value == b[i].value
    ensures a == b
  {
    hide Key, TaskOf;
    forall i | 0 <= i < |a| ensures a[i] == b[i] {
      assert Keys(a)[i] == Keys(b)[i];
      TaskOfKey(a[i]);
      TaskOfKey(b[i]);
    }
  }

  /** The first `limit` tasks of the full scan are the scan with that limit. */
  lemma FirstIsScan(store: Tasks, max: int, limit: nat, due: seq<ScheduledTask>, tasks: seq<ScheduledTask>)
    requires IsTaskScan(store, max, 0, due) && IsTaskScan(store, max, limit, tasks)
    ensures tasks == First(limit, due)
  {
    hide Due, Key, Less;
    var first := First(limit, due);
    assert Keys(first) == Keys(due)[..|first|];
    forall k | k in store && Due(k, max) && k !in Keys(first) ensures 0 < limit == |first| && Above(Keys(first), k) {
      var j :| 0 <= j < |due| && Keys(due)[j] == k;
      assert j >= |first|;
    }
    assert IsScan(store, max, limit, Keys(first));
    ScanIsUnique(store, max, limit, Keys(first), Keys(tasks));
    assert forall i :: 0 <= i < |first| ==> store[Keys(first)[i]] == first[i].value == tasks[i].value;
    SameKeysSameTasks(tasks, first);
  }

  lemma ScanAscends(store: Tasks, max: int, limit: nat, tasks: seq<ScheduledTask>)
    requires IsTaskScan(store, max, limit, tasks)
    ensures AllValid(tasks) && Ascending(Keys(tasks))
  {
  }

  lemma ScanIsDistinct(store: Tasks, max: int, limit: nat, tasks: seq<ScheduledTask>)
    requires IsTaskScan(store, max, limit, tasks)
    ensures Distinct(tasks)
  {
    hide Key;
    forall i, j | 0 <= i < j < |tasks| ensures tasks[i] != tasks[j] {
      assert Less(Keys(tasks)[i], Keys(tasks)[j]);
      LessIrreflexive(Keys(tasks)[i]);
    }
  }

  /** What one batch does to the store is what it does to the list of due tasks. */
  lemma BatchOnList(store: Tasks, max: int, p: Processor, limit: nat, due: seq<ScheduledTask>,
                    tasks: seq<ScheduledTask>)
    requires WellFormed(store) && SchedulesLater(p, max)
    requires IsTaskScan(store, max, 0, due) && IsTaskScan(store, max, limit, tasks)
    ensures AllValid(tasks) && AllValid(p.schedules(tasks))
    ensures tasks == First(limit, due)
    ensures var after := if tasks == [] then store else Apply(store, ProcessingBatch(p, tasks));
            && WellFormed(after)
            && IsTaskScan(after, max, 0, Rest(p, limit, due))
            && (tasks != [] ==> Later(after, max) == Apply(Later(store, max), Puts(p.schedules(tasks))))
    ensures |Completed(p, tasks, |tasks|)| == |due| - |Rest(p, limit, due)|
  {
    hide Apply, ProcessingBatch, Due, Key, Less, IsTaskScan, Completed;
    FirstIsScan(store, max, limit, due, tasks);
    ScanAscends(store, max, limit, tasks);
    CompletedAndLeft(p, tasks, |tasks|);
    if tasks == [] {
      assert Rest(p, limit, due) == due;
    } else {
      BatchEffect(store, max, p, tasks, limit);
      ListAfterBatch(store, Apply(store, ProcessingBatch(p, tasks)), max, p, limit, due);
    }
  }

  lemma InScan(store: Tasks, max: int, due: seq<ScheduledTask>, t: ScheduledTask)
    requires IsTaskScan(store, max, 0, due) && t in due
    ensures ValidTask(t) && Key(t) in Keys(due)
    ensures Key(t) in store && Due(Key(t), max) && store[Key(t)] == t.value
  {
    hide Due, Key, Ascending, Above;
    var i :| 0 <= i < |due| && due[i] == t;
    assert Keys(due)[i] == Key(t);
  }

  lemma NotBefore(keys: seq<bytes>, n: nat, i: nat)
    requires Ascending(keys) && n <= i < |keys|
    ensures keys[i] !in keys[..n]
  {
    LessIrreflexive(keys[i]);
  }

  /** The tasks after a batch: left over from it or behind it. */
  lemma RestMembers(p: Processor, batch: seq<ScheduledTask>, due: seq<ScheduledTask>, t: ScheduledTask)
    requires batch <= due && t in Left(p, batch, |batch|) + due[|batch|..]
    ensures t in due
  {
    LeftMembers(p, batch, |batch|);
    assert batch[..|batch|] == batch && due == batch + due[|batch|..];
  }

  lemma RestKeys(p: Processor, batch: seq<ScheduledTask>, due: seq<ScheduledTask>, k: bytes)
    requires AllValid(due) && AllValid(batch) && batch <= due && Ascending(Keys(due))
    ensures AllValid(Left(p, batch, |batch|) + due[|batch|..])
    ensures k in Keys(Left(p, batch, |batch|) + due[|batch|..]) <==>
            k in Keys(due) && k !in Completed(p, batch, |batch|)
  {
    hide Key, Less, Left, Completed;
    var m, keys := |batch|, Keys(due);
    var left, behind := Left(p, batch, m), due[m..];
    assert batch == due[..m] && Keys(batch) == keys[..m] && Keys(behind) == keys[m..];
    CompletedAndLeft(p, batch, m);
    CompletedOrLeft(p, batch, m, k);
    assert Keys(batch)[..m] == Keys(batch);
    assert Keys(left + behind) == Keys(left) + Keys(behind);
    if k in keys[m..] {
      var i :| m <= i < |keys| && keys[i] == k;
      NotBefore(keys, m, i);
    }
    LeftOrBehind(Keys(left), keys, m, Completed(p, batch, m), k);
  }

  lemma LeftOrBehind(left: seq<bytes>, all: seq<bytes>, m: nat, done: seq<bytes>, k: bytes)
    requires m <= |all| && (k in left <==> k in all[..m] && k !in done)
    requires (k in done ==> k in all[..m]) && (k in all[m..] ==> k !in all[..m])
    ensures k in left + all[m..] <==> k in all && k !in done
  {
    assert all == all[..m] + all[m..];
  }

  lemma ListAfterBatch(store: Tasks, after: Tasks, max: int, p: Processor, limit: nat, due: seq<ScheduledTask>)
    requires IsTaskScan(store, max, 0, due) && AllValid(First(limit, due))
    requires var batch := First(limit, due);
             forall k | Due(k, max) ::
               && (k in after <==> k in store && k !in Completed(p, batch, |batch|))
               && (k in after ==> after[k] == store[k])
    ensures IsTaskScan(after, max, 0, Rest(p, limit, due))
  {
    hide Due, Key, Less, Completed, Left, Ascending;
    var batch, rest := First(limit, due), Rest(p, limit, due);
    RestAscends(p, batch, due);
    forall i | 0 <= i < |rest|
      ensures Keys(rest)[i] in after && Due(Keys(rest)[i], max) && after[Keys(rest)[i]] == rest[i].value
    {
      RestMembers(p, batch, due, rest[i]);
      InScan(store, max, due, rest[i]);
      assert Keys(rest)[i] in Keys(rest);
      RestKeys(p, batch, due, Key(rest[i]));
    }
    forall k | k in after && Due(k, max) ensures k in Keys(rest) {
      RestKeys(p, batch, due, k);
      assert k in Keys(due);
    }
  }

  lemma RestAscends(p: Processor, batch: seq<ScheduledTask>, due: seq<ScheduledTask>)
    requires AllValid(due) && AllValid(batch) && batch <= due && Ascending(Keys(due))
    ensures AllValid(Left(p, batch, |batch|) + due[|batch|..])
    ensures Ascending(Keys(Left(p, batch, |batch|) + due[|batch|..]))
  {
    hide Key, Less, Left;
    var m, keys := |batch|, Keys(due);
    var left, behind := Left(p, batch, m), due[m..];
    assert Keys(batch) == keys[..m] && Keys(behind) == keys[m..];
    LeftAscends(p, batch, m);
    assert Keys(batch)[..m] == Keys(batch);
    assert Keys(left + behind) == Keys(left) + Keys(behind);
    AscendingConcat(Keys(left), Keys(behind));
  }

  lemma NoPuts(store: Tasks)
    ensures Apply(store, Puts([])) == store
  {
    assert Puts([]) == [];
  }

  lemma PutsAppend(store: Tasks, a: seq<ScheduledTask>, b: seq<ScheduledTask>)
    requires AllValid(a) && AllValid(b)
    ensures AllValid(a + b) && Apply(store, Puts(a + b)) == Apply(Apply(store, Puts(a)), Puts(b))
  {
    hide Key, Apply;
    assert Puts(a + b) == Puts(a) + Puts(b);
    ApplyAppend(store, Puts(a), Puts(b));
  }

  lemma NothingDue(store: Tasks, max: int)
    requires IsTaskScan(store, max, 0, [])
    ensures (forall k | k in store :: !Due(k, max)) && Later(store, max) == store
  {
    hide Due;
  }

  /** With a batch size of 0 a batch is empty, and its count equals the batch size, exactly when nothing
      is due; it then changes nothing, so the loop goes on from the same state. */
  lemma ZeroBatchSizeSpins(store: Tasks, max: int, tasks: seq<ScheduledTask>)
    requires IsTaskScan(store, max, 0, tasks)
    ensures |tasks| == 0 <==> !exists k | k in store :: Due(k, max)
  {
    hide Due, Key, Less;
    if |tasks| > 0 {
      assert Keys(tasks)[0] in store && Due(Keys(tasks)[0], max);
    }
    if k :| k in store && Due(k, max) {
      assert k in Keys(tasks);
    }
  }
}
