/**
 The drain loop of infra/ScheduledTaskQueue on lists: batch after batch of the due tasks goes to the
 processor, which completes some of them, until a batch is not full. A task that is not completed
 comes again in the next batch.
 */
module TaskRounds {
  import opened TaskKeys

  type TaskList = seq<ScheduledTask>

  /** A processor marks some of the tasks it is given as completed, and may schedule others through
      the same write batch. */
  datatype Processor = Processor(
    completes: (seq<ScheduledTask>, int) -> bool,
    schedules: seq<ScheduledTask> -> seq<ScheduledTask>)

  /** The batch: the first `limit` due tasks, all of them when limit is 0. */
  function First(limit: nat, due: TaskList): TaskList {
    if limit == 0 || |due| <= limit then due else due[..limit]
  }

  /** Those of the first n tasks of a batch that are not completed. */
  function Left(p: Processor, tasks: seq<ScheduledTask>, n: nat): seq<ScheduledTask>
    requires n <= |tasks|
  {
    if n == 0 then []
    else Left(p, tasks, n - 1) + if p.completes(tasks, n - 1) then [] else [tasks[n - 1]]
  }

  /** What is due after one batch. */
  function Rest(p: Processor, limit: nat, due: TaskList): TaskList {
    var batch := First(limit, due);
    Left(p, batch, |batch|) + due[|batch|..]
  }

  function After(p: Processor, limit: nat, due: TaskList, n: nat): TaskList {
    if n == 0 then due else Rest(p, limit, After(p, limit, due, n - 1))
  }

  /** Everything given to the processor in the first n batches, in order. */
  function Handed(p: Processor, limit: nat, due: TaskList, n: nat): seq<ScheduledTask> {
    if n == 0 then [] else Handed(p, limit, due, n - 1) + First(limit, After(p, limit, due, n - 1))
  }

  /** The loop goes on after a batch whose count is the batch size. */
  predicate GoesOn(limit: nat, due: TaskList) {
    |First(limit, due)| == limit
  }

  /** A full batch of which nothing is completed. */
  predicate Stuck(p: Processor, limit: nat, due: TaskList) {
    var batch := First(limit, due);
    GoesOn(limit, due) && Left(p, batch, |batch|) == batch
  }

  ghost predicate GoesOnUpTo(p: Processor, limit: nat, due: TaskList, n: nat) {
    forall i :: 0 <= i < n ==> GoesOn(limit, After(p, limit, due, i))
  }

  /** The loop comes to a batch it is stuck on. */
  ghost predicate Spins(p: Processor, limit: nat, due: TaskList) {
    exists n: nat :: Stuck(p, limit, After(p, limit, due, n)) && GoesOnUpTo(p, limit, due, n)
  }

  ghost predicate Ends(p: Processor, limit: nat, due: TaskList) {
    exists n: nat :: !GoesOn(limit, After(p, limit, due, n))
  }

  // ----- when the loop ends

  lemma {:induction false} LeftLength(p: Processor, tasks: seq<ScheduledTask>, n: nat)
    requires n <= |tasks|
    ensures |Left(p, tasks, n)| <= n
    ensures |Left(p, tasks, n)| == n ==> Left(p, tasks, n) == tasks[..n]
  {
    if n > 0 {
      LeftLength(p, tasks, n - 1);
    }
  }

  lemma RestShrinks(p: Processor, limit: nat, due: TaskList)
    ensures |Rest(p, limit, due)| <= |due|
    ensures GoesOn(limit, due) && !Stuck(p, limit, due) ==> |Rest(p, limit, due)| < |due|
    ensures Stuck(p, limit, due) ==> Rest(p, limit, due) == due
  {
    var batch := First(limit, due);
    LeftLength(p, batch, |batch|);
    assert batch[..|batch|] == batch && due == batch + due[|batch|..];
  }

  lemma {:induction false} StuckStays(p: Processor, limit: nat, due: TaskList, n: nat, m: nat)
    requires n <= m && Stuck(p, limit, After(p, limit, due, n))
    ensures After(p, limit, due, m) == After(p, limit, due, n)
  {
    hide Stuck, Rest;
    if n < m {
      StuckStays(p, limit, due, n, m - 1);
      RestShrinks(p, limit, After(p, limit, due, n));
    }
  }

  lemma {:induction false} FindEnd(p: Processor, limit: nat, due: TaskList, n: nat)
    requires !Spins(p, limit, due) && GoesOnUpTo(p, limit, due, n)
    ensures Ends(p, limit, due)
    decreases |After(p, limit, due, n)|
  {
    hide GoesOn, Stuck, Rest;
    var here := After(p, limit, due, n);
    if GoesOn(limit, here) {
      assert !Stuck(p, limit, here);
      RestShrinks(p, limit, here);
      assert After(p, limit, due, n + 1) == Rest(p, limit, here);
      FindEnd(p, limit, due, n + 1);
    }
  }

  /** For every processor, the loop ends exactly when it does not come to a full batch of which the
      processor completes nothing; with a batch size of 0 the empty batch is such a one. */
  lemma EndsExactly(p: Processor, limit: nat, due: TaskList)
    ensures Ends(p, limit, due) <==> !Spins(p, limit, due)
  {
    hide Rest;
    if !Spins(p, limit, due) {
      FindEnd(p, limit, due, 0);
    } else if Ends(p, limit, due) {
      var n: nat :| Stuck(p, limit, After(p, limit, due, n)) && GoesOnUpTo(p, limit, due, n);
      var m: nat :| !GoesOn(limit, After(p, limit, due, m));
      assert m >= n;
      StuckStays(p, limit, due, n, m);
      assert false;
    }
  }

  // ----- which tasks are handed over

  predicate Distinct(tasks: seq<ScheduledTask>) {
    forall i, j :: 0 <= i < j < |tasks| ==> tasks[i] != tasks[j]
  }

  lemma {:induction false} LeftMembers(p: Processor, tasks: seq<ScheduledTask>, n: nat)
    requires n <= |tasks|
    ensures forall t | t in Left(p, tasks, n) :: t in tasks[..n]
  {
    if n > 0 {
      LeftMembers(p, tasks, n - 1);
      assert tasks[..n] == tasks[..n - 1] + [tasks[n - 1]];
    }
  }

  /** What is left of a batch is a part of it, in its order. */
  lemma {:induction false} LeftIsPart(p: Processor, tasks: seq<ScheduledTask>, n: nat)
    requires n <= |tasks| && Distinct(tasks)
    ensures Distinct(Left(p, tasks, n))
    ensures forall t | t in Left(p, tasks, n) :: t in tasks[..n]
  {
    LeftMembers(p, tasks, n);
    if n > 0 {
      LeftIsPart(p, tasks, n - 1);
      var before, last := Left(p, tasks, n - 1), tasks[n - 1];
      assert last !in tasks[..n - 1];
      assert tasks[..n] == tasks[..n - 1] + [last];
    }
  }

  lemma DistinctConcat(a: seq<ScheduledTask>, b: seq<ScheduledTask>)
    requires Distinct(a) && Distinct(b) && forall t | t in a :: t !in b
    ensures Distinct(a + b)
  {
    var c := a + b;
    forall i, j | 0 <= i < j < |c| ensures c[i] != c[j] {
      if i < |a| <= j {
        assert a[i] in a && b[j - |a|] in b;
      } else if |a| <= i {
        assert b[i - |a|] != b[j - |a|];
      }
    }
  }

  lemma RestIsPart(p: Processor, limit: nat, due: TaskList)
    requires Distinct(due)
    ensures Distinct(Rest(p, limit, due))
    ensures forall t | t in Rest(p, limit, due) :: t in due
    ensures forall t | t in due && t !in First(limit, due) :: t in Rest(p, limit, due)
  {
    var batch := First(limit, due);
    LeftIsPart(p, batch, |batch|);
    assert batch[..|batch|] == batch && due == batch + due[|batch|..];
    DistinctConcat(Left(p, batch, |batch|), due[|batch|..]);
  }

  /** A task behind a full batch was not in the batch before either: tasks only move forward. */
  lemma BehindWasBehind(p: Processor, limit: nat, due: TaskList, t: ScheduledTask)
    requires Distinct(due) && limit <= |Rest(p, limit, due)| && t in Rest(p, limit, due)[limit..]
    ensures limit <= |due| && t in due[limit..] && (limit > 0 ==> t !in First(limit, due))
  {
    var batch, rest := First(limit, due), Rest(p, limit, due);
    LeftLength(p, batch, |batch|);
    RestShrinks(p, limit, due);
    RestIsPart(p, limit, due);
    if limit > 0 {
      var left := Left(p, batch, |batch|);
      assert |batch| == limit && |left| <= limit;
      assert rest[limit..] == due[limit..][limit - |left|..];
    }
  }

  lemma {:induction false} AfterIsPart(p: Processor, limit: nat, due: TaskList, n: nat)
    requires Distinct(due)
    ensures Distinct(After(p, limit, due, n))
  {
    if n > 0 {
      AfterIsPart(p, limit, due, n - 1);
      RestIsPart(p, limit, After(p, limit, due, n - 1));
    }
  }

  lemma {:induction false} BehindAllAlong(p: Processor, limit: nat, due: TaskList, n: nat, i: nat, t: ScheduledTask)
    requires Distinct(due) && limit > 0 && i <= n
    requires limit <= |After(p, limit, due, n)| && t in After(p, limit, due, n)[limit..]
    ensures limit <= |After(p, limit, due, i)| && t in After(p, limit, due, i)[limit..]
    decreases n - i
  {
    hide Rest;
    if i < n {
      BehindAllAlong(p, limit, due, n, i + 1, t);
      AfterIsPart(p, limit, due, i);
      BehindWasBehind(p, limit, After(p, limit, due, i), t);
    }
  }

  lemma {:induction false} HandedBefore(p: Processor, limit: nat, due: TaskList, n: nat, t: ScheduledTask)
    returns (i: nat)
    requires Distinct(due) && t in due && t !in After(p, limit, due, n)
    ensures i < n && t in First(limit, After(p, limit, due, i))
  {
    hide Rest, First;
    var before := After(p, limit, due, n - 1);
    if t !in before {
      i := HandedBefore(p, limit, due, n - 1, t);
    } else {
      i := n - 1;
      AfterIsPart(p, limit, due, i);
      RestIsPart(p, limit, before);
    }
  }

  ghost predicate Starves(p: Processor, limit: nat, due: TaskList, t: ScheduledTask) {
    forall n: nat :: t !in First(limit, After(p, limit, due, n))
  }

  /** When the loop is stuck on its n-th batch, the due tasks that are never handed over are exactly
      those behind that batch. */
  lemma StarveExactly(p: Processor, limit: nat, due: TaskList, n: nat, t: ScheduledTask)
    requires Distinct(due) && t in due && Stuck(p, limit, After(p, limit, due, n))
    ensures limit <= |After(p, limit, due, n)|
    ensures Starves(p, limit, due, t) <==> t in After(p, limit, due, n)[limit..]
  {
    hide Rest, Left;
    var here := After(p, limit, due, n);
    assert here == First(limit, here) + here[limit..];
    if t !in here[limit..] {
      if t !in here {
        var i := HandedBefore(p, limit, due, n, t);
      }
    } else {
      forall i: nat ensures t !in First(limit, After(p, limit, due, i)) {
        if i <= n {
          BehindAllAlong(p, limit, due, n, i, t);
          AfterIsPart(p, limit, due, i);
        } else {
          StuckStays(p, limit, due, n, i);
          AfterIsPart(p, limit, due, n);
        }
      }
    }
  }

  /** When the loop ends with its n-th batch, every due task has been handed over. */
  lemma EndHandsAllOver(p: Processor, limit: nat, due: TaskList, n: nat, t: ScheduledTask) returns (i: nat)
    requires Distinct(due) && t in due && !GoesOn(limit, After(p, limit, due, n))
    ensures i <= n && t in First(limit, After(p, limit, due, i))
  {
    if t in After(p, limit, due, n) {
      i := n;
    } else {
      i := HandedBefore(p, limit, due, n, t);
    }
  }

  /** Such a processor: one that completes nothing spins on any full batch, and the tasks behind it
      starve. */
  lemma NothingCompletedSpins(p: Processor, limit: nat, due: TaskList)
    requires forall tasks: seq<ScheduledTask>, i: int :: !p.completes(tasks, i)
    requires Distinct(due) && limit <= |due|
    requires limit == 0 ==> due == []
    ensures Spins(p, limit, due) && !Ends(p, limit, due)
    ensures forall t | t in due[limit..] :: Starves(p, limit, due, t)
  {
    var batch := First(limit, due);
    assert batch == due[..limit];
    LeftAll(p, batch, |batch|);
    assert Stuck(p, limit, After(p, limit, due, 0)) && GoesOnUpTo(p, limit, due, 0);
    EndsExactly(p, limit, due);
    forall t | t in due[limit..] ensures Starves(p, limit, due, t) {
      StarveExactly(p, limit, due, 0, t);
    }
  }

  lemma {:induction false} LeftAll(p: Processor, tasks: seq<ScheduledTask>, n: nat)
    requires n <= |tasks| && forall i :: 0 <= i < n ==> !p.completes(tasks, i)
    ensures Left(p, tasks, n) == tasks[..n]
  {
    if n > 0 {
      LeftAll(p, tasks, n - 1);
    }
  }

  // ----- a processor that completes everything

  ghost predicate CompletesAll(p: Processor) {
    forall tasks: seq<ScheduledTask>, i: int :: p.completes(tasks, i)
  }

  lemma {:induction false} LeftNone(p: Processor, tasks: seq<ScheduledTask>, n: nat)
    requires CompletesAll(p) && n <= |tasks|
    ensures Left(p, tasks, n) == []
  {
    if n > 0 {
      LeftNone(p, tasks, n - 1);
    }
  }

  lemma BatchAndRest(limit: nat, due: TaskList)
    ensures |First(limit, due)| <= |due| && due == First(limit, due) + due[|First(limit, due)|..]
  {
  }

  lemma {:induction false} EachOnce(p: Processor, limit: nat, due: TaskList, n: nat)
    requires CompletesAll(p)
    ensures Handed(p, limit, due, n) + After(p, limit, due, n) == due
  {
    if n > 0 {
      EachOnce(p, limit, due, n - 1);
      var handed, before := Handed(p, limit, due, n - 1), After(p, limit, due, n - 1);
      var batch := First(limit, before);
      LeftNone(p, batch, |batch|);
      hide First, Left;
      assert Rest(p, limit, before) == before[|batch|..];
      BatchAndRest(limit, before);
      assert handed + batch + before[|batch|..] == handed + (batch + before[|batch|..]);
    }
  }

  /** It drains: the loop ends unless the batch size is 0 and nothing is due, each due task is handed
      over once, in order, and none is left. */
  lemma CompletesAllDrains(p: Processor, limit: nat, due: TaskList)
    requires CompletesAll(p)
    ensures Ends(p, limit, due) <==> limit > 0 || due != []
    ensures forall n: nat | !GoesOn(limit, After(p, limit, due, n)) ::
              After(p, limit, due, n + 1) == [] && Handed(p, limit, due, n + 1) == due
  {
    EndsExactly(p, limit, due);
    forall n: nat ensures Stuck(p, limit, After(p, limit, due, n)) ==> limit == 0 && After(p, limit, due, n) == [] {
      var batch := First(limit, After(p, limit, due, n));
      LeftNone(p, batch, |batch|);
    }
    if limit == 0 && due == [] {
      assert Stuck(p, limit, After(p, limit, due, 0)) && GoesOnUpTo(p, limit, due, 0);
    } else if limit == 0 {
      assert !GoesOn(limit, After(p, limit, due, 0));
    }
    forall n: nat | !GoesOn(limit, After(p, limit, due, n))
      ensures After(p, limit, due, n + 1) == [] && Handed(p, limit, due, n + 1) == due
    {
      var here := After(p, limit, due, n);
      LeftNone(p, here, |here|);
      EachOnce(p, limit, due, n + 1);
    }
  }
}
