/**
 MULTI and EXEC over one write batch (pipeline/TransactionalRedisHandler).

 A command body reads the database and adds to the batch it is given; it writes in no other way.
 Whether a database write goes through is an input of each request.
 */
module Transactions {
  import opened Bytes
  import opened RedisValues
  import opened OrderedAdapters
  import opened Databases
  import opened RedisHandlers

  datatype Effect = Effect(result: RedisValue, ops: WriteBatch)
  type TransactionalFunc = (Command, Db) -> Effect
  datatype TransactionalHandler = TransactionalHandler(func: TransactionalFunc, minArgs: int, maxArgs: int)
  type TransactionalTable = map<bytes, TransactionalHandler>

  datatype Queued = Queued(func: TransactionalFunc, cmd: Command)

  /** A command with the status its database write would get: None is OK. */
  datatype Request = Request(cmd: Command, status: Option<bytes>)

  datatype TxState = TxState(inTransaction: bool, errorEncountered: bool, queuedCommands: seq<Queued>)
  const IDLE: TxState := TxState(false, false, [])

  datatype Outcome = Outcome(state: TxState, db: Db, reply: RedisValue)

  function MULTI(): bytes { Ascii("multi") }
  function EXEC(): bytes { Ascii("exec") }

  function Ok(): RedisValue { SimpleString(Ascii("OK")) }
  function QueuedReply(): RedisValue { SimpleString(Ascii("QUEUED")) }
  function NestedMulti(): RedisValue { Error(Ascii("MULTI calls cannot be nested")) }
  function ExecWithoutMulti(): RedisValue { Error(Ascii("EXEC without MULTI")) }
  function DiscardedBefore(): RedisValue { Error(Ascii("Transaction discarded because of previous errors")) }
  function DiscardedDuring(): RedisValue {
    Error(Ascii("Transaction discarded because an error was encountered during execution"))
  }
  function RocksDbError(text: bytes): RedisValue { Error(Ascii("RocksDB error: ") + text) }

  // ----- one request on values

  datatype Executed = Executed(results: seq<RedisValue>, batch: WriteBatch, failed: bool)

  /** The queued commands run in order on the same database and into one batch, up to the first
      that returns an error. */
  function RunQueue(queue: seq<Queued>, db: Db): Executed {
    if queue == [] then Executed([], [], false)
    else
      var before, last := RunQueue(queue[..|queue| - 1], db), queue[|queue| - 1];
      if before.failed then before
      else
        var effect := last.func(last.cmd, db);
        if effect.result.Error? then Executed(before.results, before.batch + effect.ops, true)
        else Executed(before.results + [effect.result], before.batch + effect.ops, false)
  }

  /** writeResult: an empty batch is not written, so its write cannot fail. */
  function Commit(db: Db, batch: WriteBatch, status: Option<bytes>): Db {
    if |batch| > 0 && status.None? then Apply(db, batch) else db
  }

  function CommitReply(result: RedisValue, batch: WriteBatch, status: Option<bytes>): RedisValue {
    if |batch| > 0 && status.Some? then RocksDbError(status.value) else result
  }

  function Name(req: Request): bytes
    requires req.cmd != []
  {
    Lower(req.cmd[0])
  }

  predicate IsMulti(req: Request) { req.cmd != [] && Name(req) == MULTI() }
  predicate IsExec(req: Request) { req.cmd != [] && Name(req) == EXEC() }

  /** A command other than MULTI and EXEC that is in the table, with a valid argument count. */
  predicate Accepted(table: TransactionalTable, req: Request) {
    && req.cmd != [] && !IsMulti(req) && !IsExec(req) && Name(req) in table
    && var h := table[Name(req)]; ArgCountOk(req.cmd, h.minArgs, h.maxArgs)
  }

  predicate Rejected(table: TransactionalTable, req: Request) {
    req.cmd != [] && !IsMulti(req) && !IsExec(req) && !Accepted(table, req)
  }

  function HandleMulti(s: TxState, db: Db): Outcome {
    if s.inTransaction then Outcome(s, db, NestedMulti())
    else Outcome(s.(inTransaction := true), db, Ok())
  }

  function HandleExec(s: TxState, db: Db, status: Option<bytes>): Outcome {
    if !s.inTransaction then Outcome(IDLE, db, ExecWithoutMulti())
    else if s.errorEncountered then Outcome(IDLE, db, DiscardedBefore())
    else
      var x := RunQueue(s.queuedCommands, db);
      if x.failed then Outcome(IDLE, db, DiscardedDuring())
      else Outcome(IDLE, Commit(db, x.batch, status), CommitReply(Array(x.results), x.batch, status))
  }

  /** A request other than MULTI and EXEC. */
  function HandleCommand(table: TransactionalTable, s: TxState, db: Db, req: Request): Outcome
    requires req.cmd != [] && !IsMulti(req) && !IsExec(req)
  {
    if Name(req) !in table then
      Outcome(s.(errorEncountered := true), db, UnknownCommand(Name(req)))
    else if !Accepted(table, req) then
      Outcome(s.(errorEncountered := true), db, WrongNumArgs(Name(req)))
    else if s.inTransaction then
      Outcome(s.(queuedCommands := s.queuedCommands + [ToQueue(table, req)]), db, QueuedReply())
    else
      var effect := table[Name(req)].func(req.cmd, db);
      Outcome(s, Commit(db, effect.ops, req.status), CommitReply(effect.result, effect.ops, req.status))
  }

  function Handle(table: TransactionalTable, s: TxState, db: Db, req: Request): Outcome
    requires req.cmd != []
  {
    if IsMulti(req) then HandleMulti(s, db)
    else if IsExec(req) then HandleExec(s, db, req.status)
    else HandleCommand(table, s, db, req)
  }

  /** A decoded message of any kind; the reply to an empty request stands for none. */
  function HandleMessage(table: TransactionalTable, s: TxState, db: Db, val: RedisValue,
                         status: Option<bytes>): Outcome
  {
    match val
    case Error(_) => Outcome(s, db, val)
    case BulkStringArray(cmd) =>
      if cmd == [] then Outcome(s, db, AsyncResult) else Handle(table, s, db, Request(cmd, status))
    case _ => Outcome(s, db, NotRedisArray())
  }

  function ToQueue(table: TransactionalTable, req: Request): Queued
    requires Accepted(table, req)
  {
    Queued(table[Name(req)].func, req.cmd)
  }

  // ----- the handler as the source runs it

  class TransactionalRedisHandler {
    const table: TransactionalTable
    const db: Database<DbKey>
    var inTransaction: bool
    var errorEncountered: bool
    var queuedCommands: seq<Queued>

    constructor (table: TransactionalTable, db: Database<DbKey>)
      ensures this.table == table && this.db == db && View() == IDLE
    {
      this.table, this.db := table, db;
      inTransaction, errorEncountered, queuedCommands := false, false, [];
    }

    ghost function View(): TxState
      reads this
    {
      TxState(inTransaction, errorEncountered, queuedCommands)
    }

    /** read: every message but an empty request writes exactly one message, with its own key. */
    method ReadMessage(ctx: Context, msg: RedisMessage, status: Option<bytes>)
      modifies this, db, ctx
      ensures var o := HandleMessage(table, old(View()), old(db.contents), msg.val, status);
              && View() == o.state && db.contents == o.db
              && ctx.written == old(ctx.written) +
                 if msg.val == BulkStringArray([]) then [] else [RedisMessage(msg.key, o.reply)]
      ensures msg.val.Error? ==> ctx.written == old(ctx.written) + [msg]
      ensures !msg.val.Error? && !msg.val.BulkStringArray? ==>
                ctx.written == old(ctx.written) +
                               [RedisMessage(msg.key, Error(Ascii("Not a Redis Array of Bulk String")))]
    {
      hide Handle, Ascii;
      if msg.val.Error? {
        ctx.FireWrite(msg);
      } else if !msg.val.BulkStringArray? {
        ctx.FireWrite(RedisMessage(msg.key, NotRedisArray()));
      } else if msg.val.strs != [] {
        Read(ctx, msg.key, Request(msg.val.strs, status));
      }
    }

    /** read, for a request: exactly one message is written, with the key of the request. */
    method Read(ctx: Context, key: int, req: Request)
      requires req.cmd != []
      modifies this, db, ctx
      ensures var o := Handle(table, old(View()), old(db.contents), req);
              && View() == o.state && db.contents == o.db
              && ctx.written == old(ctx.written) + [RedisMessage(key, o.reply)]
    {
      hide HandleMulti, HandleExec, HandleCommand, Ascii, Lower;
      var name := Lower(req.cmd[0]);
      if name == MULTI() {
        Multi(ctx, key);
      } else if name == EXEC() {
        Exec(ctx, key, req.status);
      } else {
        ReadCommand(ctx, key, name, req);
      }
    }

    method Multi(ctx: Context, key: int)
      modifies this, ctx
      ensures var o := HandleMulti(old(View()), old(db.contents));
              && View() == o.state && db.contents == o.db
              && ctx.written == old(ctx.written) + [RedisMessage(key, o.reply)]
    {
      hide Ascii;
      if inTransaction {
        ctx.FireWrite(RedisMessage(key, NestedMulti()));
      } else {
        inTransaction := true;
        ctx.FireWrite(RedisMessage(key, Ok()));
      }
    }

    method ReadCommand(ctx: Context, key: int, name: bytes, req: Request)
      requires req.cmd != [] && name == Name(req) && !IsMulti(req) && !IsExec(req)
      modifies this, db, ctx
      ensures var o := HandleCommand(table, old(View()), old(db.contents), req);
              && View() == o.state && db.contents == o.db
              && ctx.written == old(ctx.written) + [RedisMessage(key, o.reply)]
    {
      hide Apply, Ascii, Lower, ArgCountOk, Commit, CommitReply;
      if name !in table {
        errorEncountered := true;
        ctx.FireWrite(RedisMessage(key, UnknownCommand(name)));
        return;
      }
      var h := table[name];
      if !ArgCountOk(req.cmd, h.minArgs, h.maxArgs) {
        errorEncountered := true;
        ctx.FireWrite(RedisMessage(key, WrongNumArgs(name)));
      } else if inTransaction {
        queuedCommands := queuedCommands + [Queued(h.func, req.cmd)];
        ctx.FireWrite(RedisMessage(key, QueuedReply()));
      } else {
        var effect := h.func(req.cmd, db.contents);
        WriteResult(ctx, key, effect.result, effect.ops, req.status);
      }
    }

    method Exec(ctx: Context, key: int, status: Option<bytes>)
      modifies this, db, ctx
      ensures View() == IDLE
      ensures var o := HandleExec(old(View()), old(db.contents), status);
              && View() == o.state && db.contents == o.db
              && ctx.written == old(ctx.written) + [RedisMessage(key, o.reply)]
    {
      hide RunQueue, Apply, Ascii, Commit, CommitReply;
      if inTransaction {
        if errorEncountered {
          ctx.FireWrite(RedisMessage(key, DiscardedBefore()));
        } else {
          var x := ExecuteQueue();
          if x.failed {
            errorEncountered := true;
            ctx.FireWrite(RedisMessage(key, DiscardedDuring()));
          } else {
            WriteResult(ctx, key, Array(x.results), x.batch, status);
          }
        }
      } else {
        ctx.FireWrite(RedisMessage(key, ExecWithoutMulti()));
      }
      inTransaction, errorEncountered, queuedCommands := false, false, [];
    }

    /** The loop of EXEC, left at the first error. */
    method ExecuteQueue() returns (x: Executed)
      ensures x == RunQueue(queuedCommands, db.contents)
    {
      x := Executed([], [], false);
      for i := 0 to |queuedCommands|
        invariant x == RunQueue(queuedCommands[..i], db.contents) && !x.failed
      {
        var q := queuedCommands[i];
        assert queuedCommands[..i + 1][..i] == queuedCommands[..i];
        var effect := q.func(q.cmd, db.contents);
        if effect.result.Error? {
          x := Executed(x.results, x.batch + effect.ops, true);
          FailureStops(queuedCommands, i + 1, db.contents);
          return;
        }
        x := Executed(x.results + [effect.result], x.batch + effect.ops, false);
      }
      assert queuedCommands[..|queuedCommands|] == queuedCommands;
    }

    method WriteResult(ctx: Context, key: int, result: RedisValue, batch: WriteBatch, status: Option<bytes>)
      modifies db, ctx
      ensures db.contents == Commit(old(db.contents), batch, status)
      ensures ctx.written == old(ctx.written) + [RedisMessage(key, CommitReply(result, batch, status))]
    {
      if |batch| > 0 {
        db.Write(batch, status.None?);
        if status.Some? {
          ctx.FireWrite(RedisMessage(key, RocksDbError(status.value)));
          return;
        }
      }
      ctx.FireWrite(RedisMessage(key, result));
    }
  }

  lemma {:induction false} FailureStops(queue: seq<Queued>, i: nat, db: Db)
    requires i <= |queue| && RunQueue(queue[..i], db).failed
    ensures RunQueue(queue, db) == RunQueue(queue[..i], db)
  {
    if i == |queue| {
      assert queue[..i] == queue;
    } else {
      assert queue[..|queue| - 1][..i] == queue[..i];
      FailureStops(queue[..|queue| - 1], i, db);
    }
  }

  // ----- state over whole histories

  predicate Requests(history: seq<Request>) {
    forall i :: 0 <= i < |history| ==> history[i].cmd != []
  }

  function Run(table: TransactionalTable, db: Db, history: seq<Request>): Outcome
    requires Requests(history)
  {
    if history == [] then Outcome(IDLE, db, NullString)
    else
      var o := Run(table, db, history[..|history| - 1]);
      Handle(table, o.state, o.db, history[|history| - 1])
  }

  /** The requests after the last EXEC. */
  function SinceExec(history: seq<Request>): seq<Request> {
    if history == [] || IsExec(history[|history| - 1]) then []
    else SinceExec(history[..|history| - 1]) + [history[|history| - 1]]
  }

  /** It is the longest suffix without an EXEC. */
  lemma {:induction false} SinceExecIsLongest(history: seq<Request>)
    ensures var s := SinceExec(history);
            && |s| <= |history| && s == history[|history| - |s|..]
            && (|s| < |history| ==> IsExec(history[|history| - |s| - 1]))
            && forall i :: 0 <= i < |s| ==> !IsExec(s[i])
  {
    hide IsExec;
    if history != [] && !IsExec(history[|history| - 1]) {
      SinceExecIsLongest(history[..|history| - 1]);
    }
  }

  predicate MultiSince(s: seq<Request>) {
    exists i :: 0 <= i < |s| && IsMulti(s[i])
  }

  predicate RejectedSince(table: TransactionalTable, s: seq<Request>) {
    exists i :: 0 <= i < |s| && Rejected(table, s[i])
  }

  /** From the first MULTI on. */
  function FromFirstMulti(s: seq<Request>): seq<Request> {
    if s == [] || IsMulti(s[0]) then s else FromFirstMulti(s[1..])
  }

  function AcceptedOf(table: TransactionalTable, s: seq<Request>): seq<Queued> {
    if s == [] then []
    else
      AcceptedOf(table, s[..|s| - 1]) +
      if Accepted(table, s[|s| - 1]) then [ToQueue(table, s[|s| - 1])] else []
  }

  lemma MultiSinceCons(s: seq<Request>)
    requires s != []
    ensures MultiSince(s) <==> IsMulti(s[0]) || MultiSince(s[1..])
  {
    hide IsMulti;
    assert forall i :: 0 < i < |s| ==> s[1..][i - 1] == s[i];
  }

  lemma {:induction false} FromFirstMultiSnoc(s: seq<Request>, r: Request)
    ensures FromFirstMulti(s + [r]) ==
            if MultiSince(s) then FromFirstMulti(s) + [r] else if IsMulti(r) then [r] else []
  {
    hide IsMulti;
    var t := s + [r];
    if s == [] {
      assert t == [r] && t[1..] == [];
    } else {
      MultiSinceCons(s);
      hide MultiSince;
      assert t[0] == s[0] && t[1..] == s[1..] + [r];
      if !IsMulti(s[0]) {
        FromFirstMultiSnoc(s[1..], r);
      }
    }
  }

  /** The state the history calls for. */
  ghost predicate Calls(table: TransactionalTable, history: seq<Request>, st: TxState) {
    var s := SinceExec(history);
    && (st.inTransaction <==> MultiSince(s))
    && (st.errorEncountered <==> RejectedSince(table, s))
    && st.queuedCommands == (if MultiSince(s) then AcceptedOf(table, FromFirstMulti(s)) else [])
  }

  lemma MultiSinceSnoc(s: seq<Request>, r: Request)
    ensures MultiSince(s + [r]) <==> MultiSince(s) || IsMulti(r)
  {
    var t := s + [r];
    assert t[|s|] == r && forall i :: 0 <= i < |s| ==> t[i] == s[i];
  }

  lemma RejectedSinceSnoc(table: TransactionalTable, s: seq<Request>, r: Request)
    ensures RejectedSince(table, s + [r]) <==> RejectedSince(table, s) || Rejected(table, r)
  {
    hide Rejected;
    var t := s + [r];
    assert t[|s|] == r && forall i :: 0 <= i < |s| ==> t[i] == s[i];
  }

  lemma HandleState(table: TransactionalTable, st: TxState, db: Db, r: Request)
    requires r.cmd != []
    ensures var st' := Handle(table, st, db, r).state;
            if IsExec(r) then st' == IDLE
            else
              && st'.inTransaction == (st.inTransaction || IsMulti(r))
              && st'.errorEncountered == (st.errorEncountered || Rejected(table, r))
              && st'.queuedCommands ==
                 (if st.inTransaction && Accepted(table, r) then st.queuedCommands + [ToQueue(table, r)]
                  else st.queuedCommands)
  {
    hide RunQueue, Lower, ArgCountOk, Ascii, Apply, MULTI, EXEC;
    MultiIsNotExec();
  }

  lemma MultiIsNotExec()
    ensures MULTI() != EXEC()
  {
    assert |MULTI()| == 5 && |EXEC()| == 4;
  }

  lemma CallsStep(table: TransactionalTable, before: seq<Request>, r: Request, st: TxState, db: Db)
    requires r.cmd != [] && Calls(table, before, st)
    ensures Calls(table, before + [r], Handle(table, st, db, r).state)
  {
    hide Handle, Rejected, Accepted, IsMulti, IsExec, MultiSince, RejectedSince, FromFirstMulti, AcceptedOf;
    HandleState(table, st, db, r);
    SinceExecSnoc(before, r);
    var s := SinceExec(before);
    if IsExec(r) {
      NothingCalled(table);
    } else {
      MultiSinceSnoc(s, r);
      RejectedSinceSnoc(table, s, r);
      QueueSnoc(table, s, r);
    }
  }

  lemma SinceExecSnoc(before: seq<Request>, r: Request)
    ensures SinceExec(before + [r]) == if IsExec(r) then [] else SinceExec(before) + [r]
  {
    assert (before + [r])[..|before + [r]| - 1] == before;
  }

  lemma QueueSnoc(table: TransactionalTable, s: seq<Request>, r: Request)
    ensures MultiSince(s) || IsMulti(r) ==>
            AcceptedOf(table, FromFirstMulti(s + [r])) ==
            (if MultiSince(s) then AcceptedOf(table, FromFirstMulti(s)) else []) +
            (if MultiSince(s) && Accepted(table, r) then [ToQueue(table, r)] else [])
  {
    hide Accepted, IsMulti, MultiSince, FromFirstMulti;
    FromFirstMultiSnoc(s, r);
    if MultiSince(s) {
      AcceptedSnoc(table, FromFirstMulti(s), r);
    } else if IsMulti(r) {
      AcceptedSnoc(table, [], r);
      MultiIsNotAccepted(table, r);
      assert [] + [r] == [r];
    }
  }

  lemma AcceptedSnoc(table: TransactionalTable, s: seq<Request>, r: Request)
    ensures AcceptedOf(table, s + [r]) == AcceptedOf(table, s) + if Accepted(table, r) then [ToQueue(table, r)] else []
  {
    assert (s + [r])[..|s + [r]| - 1] == s;
  }

  lemma MultiIsNotAccepted(table: TransactionalTable, r: Request)
    ensures IsMulti(r) ==> !Accepted(table, r)
  {
  }

  /** Over every history: the handler is in a transaction exactly when a MULTI came after the last
      EXEC; the error flag is up exactly when a command was rejected after the last EXEC, inside or
      outside MULTI; and the queue is exactly the accepted commands since the first such MULTI. */
  lemma {:induction false} StateOverHistories(table: TransactionalTable, db: Db, history: seq<Request>)
    requires Requests(history)
    ensures Calls(table, history, Run(table, db, history).state)
  {
    hide Handle, Calls;
    if history == [] {
      NothingCalled(table);
    } else {
      var before, r := history[..|history| - 1], history[|history| - 1];
      assert history == before + [r];
      StateOverHistories(table, db, before);
      var o := Run(table, db, before);
      CallsStep(table, before, r, o.state, o.db);
    }
  }

  lemma NothingCalled(table: TransactionalTable)
    ensures Calls(table, [], IDLE)
    ensures !MultiSince([]) && !RejectedSince(table, [])
  {
  }

  // ----- replies over whole histories

  /** What the queued commands reply and write, all on one database. */
  function QueueResults(queue: seq<Queued>, db: Db): seq<RedisValue> {
    if queue == [] then []
    else QueueResults(queue[..|queue| - 1], db) + [queue[|queue| - 1].func(queue[|queue| - 1].cmd, db).result]
  }

  function QueueOps(queue: seq<Queued>, db: Db): WriteBatch {
    if queue == [] then []
    else QueueOps(queue[..|queue| - 1], db) + queue[|queue| - 1].func(queue[|queue| - 1].cmd, db).ops
  }

  predicate QueueFails(queue: seq<Queued>, db: Db) {
    exists i :: 0 <= i < |queue| && queue[i].func(queue[i].cmd, db).result.Error?
  }

  /** The loop of EXEC fails exactly when some queued command returns an error; otherwise it collects all
      results and all operations, in order. */
  lemma {:induction false} RunQueueExactly(queue: seq<Queued>, db: Db)
    ensures RunQueue(queue, db).failed <==> QueueFails(queue, db)
    ensures !QueueFails(queue, db) ==>
              RunQueue(queue, db) == Executed(QueueResults(queue, db), QueueOps(queue, db), false)
  {
    if queue != [] {
      var init, last := queue[..|queue| - 1], queue[|queue| - 1];
      RunQueueExactly(init, db);
      assert forall i :: 0 <= i < |init| ==> init[i] == queue[i];
      if QueueFails(init, db) {
        var i :| 0 <= i < |init| && init[i].func(init[i].cmd, db).result.Error?;
        assert queue[i].func(queue[i].cmd, db).result.Error?;
      }
    }
  }

  /** A result with a write: a failed write of a non-empty batch turns the result into an error and
      changes nothing. */
  predicate Wrote(before: Db, ops: WriteBatch, result: RedisValue, status: Option<bytes>,
                  after: Db, reply: RedisValue)
  {
    if ops != [] && status.Some? then after == before && reply == Error(Ascii("RocksDB error: ") + status.value)
    else after == Apply(before, ops) && reply == result
  }

  lemma CommitWrites(db: Db, ops: WriteBatch, result: RedisValue, status: Option<bytes>)
    ensures Wrote(db, ops, result, status, Commit(db, ops, status), CommitReply(result, ops, status))
  {
    hide Ascii;
    if ops == [] {
      assert Apply(db, ops) == db;
    }
  }

  /** What EXEC does, told from the history: it runs the accepted commands since MULTI exactly when
      there was a MULTI and no command was rejected since the previous EXEC. Otherwise, or when a
      command fails, it leaves the database as it is, and its reply says which. */
  lemma ExecRunsTheQueue(table: TransactionalTable, db: Db, history: seq<Request>, exec: Request)
    requires Requests(history) && exec.cmd != [] && Lower(exec.cmd[0]) == Ascii("exec")
    ensures var s := SinceExec(history);
            var before := Run(table, db, history);
            var after := Handle(table, before.state, before.db, exec);
            var queue := AcceptedOf(table, FromFirstMulti(s));
            && after.state == IDLE
            && (if !MultiSince(s) then
                  after.db == before.db && after.reply == Error(Ascii("EXEC without MULTI"))
                else if RejectedSince(table, s) then
                  && after.db == before.db
                  && after.reply == Error(Ascii("Transaction discarded because of previous errors"))
                else if QueueFails(queue, before.db) then
                  && after.db == before.db
                  && after.reply ==
                       Error(Ascii("Transaction discarded because an error was encountered during execution"))
                else
                  Wrote(before.db, QueueOps(queue, before.db), Array(QueueResults(queue, before.db)), exec.status,
                        after.db, after.reply))
  {
    hide Run, RunQueue, RejectedSince, MultiSince, AcceptedOf, QueueFails, QueueOps, QueueResults, Wrote;
    hide Ascii, Lower, Commit, CommitReply;
    StateOverHistories(table, db, history);
    MultiIsNotExec();
    var before, queue := Run(table, db, history), AcceptedOf(table, FromFirstMulti(SinceExec(history)));
    RunQueueExactly(queue, before.db);
    CommitWrites(before.db, QueueOps(queue, before.db), Array(QueueResults(queue, before.db)), exec.status);
  }

  /** MULTI begins a transaction unless one has begun since the last EXEC. */
  lemma MultiReplies(table: TransactionalTable, db: Db, history: seq<Request>, multi: Request)
    requires Requests(history) && multi.cmd != [] && Lower(multi.cmd[0]) == Ascii("multi")
    ensures var before := Run(table, db, history);
            var after := Handle(table, before.state, before.db, multi);
            && after.db == before.db
            && after.reply == if MultiSince(SinceExec(history)) then Error(Ascii("MULTI calls cannot be nested"))
                              else SimpleString(Ascii("OK"))
  {
    hide Run, RejectedSince, MultiSince, AcceptedOf, Ascii, Lower;
    StateOverHistories(table, db, history);
  }

  /** Every other command: unknown and miscounted ones get their error; the rest is queued since MULTI, and
      else runs at once. */
  lemma CommandReplies(table: TransactionalTable, db: Db, history: seq<Request>, req: Request)
    requires Requests(history) && req.cmd != []
    requires Lower(req.cmd[0]) != Ascii("multi") && Lower(req.cmd[0]) != Ascii("exec")
    ensures var before := Run(table, db, history);
            var after := Handle(table, before.state, before.db, req);
            var name, args := Lower(req.cmd[0]), |req.cmd| - 1;
            if name !in table then
              after.db == before.db && after.reply == Error(Ascii("Unknown command: '") + name + Ascii("'"))
            else if (table[name].minArgs != -1 && args < table[name].minArgs) ||
                    (table[name].maxArgs != -1 && args > table[name].maxArgs) then
              && after.db == before.db
              && after.reply == Error(Ascii("Wrong number of arguments for '") + name + Ascii("' command"))
            else if MultiSince(SinceExec(history)) then
              after.db == before.db && after.reply == SimpleString(Ascii("QUEUED"))
            else
              var effect := table[name].func(req.cmd, before.db);
              Wrote(before.db, effect.ops, effect.result, req.status, after.db, after.reply)
  {
    hide Run, RejectedSince, MultiSince, AcceptedOf, Ascii, Lower, Commit, CommitReply, Wrote, ArgCountOk;
    StateOverHistories(table, db, history);
    var before, name := Run(table, db, history), Lower(req.cmd[0]);
    if name in table {
      ArgCounts(req.cmd, table[name].minArgs, table[name].maxArgs);
      var effect := table[name].func(req.cmd, before.db);
      CommitWrites(before.db, effect.ops, effect.result, req.status);
    }
  }

  // ----- messages that are no requests

  /** What a connection decodes, each with the status of its write. */
  datatype Message = Message(val: RedisValue, status: Option<bytes>)

  predicate IsRequest(m: Message) {
    m.val.BulkStringArray? && m.val.strs != []
  }

  function RunMessages(table: TransactionalTable, db: Db, msgs: seq<Message>): (TxState, Db) {
    if msgs == [] then (IDLE, db)
    else
      var before, m := RunMessages(table, db, msgs[..|msgs| - 1]), msgs[|msgs| - 1];
      var o := HandleMessage(table, before.0, before.1, m.val, m.status);
      (o.state, o.db)
  }

  function RequestsOf(msgs: seq<Message>): (history: seq<Request>)
    ensures Requests(history)
  {
    if msgs == [] then []
    else
      var m := msgs[|msgs| - 1];
      RequestsOf(msgs[..|msgs| - 1]) + if IsRequest(m) then [Request(m.val.strs, m.status)] else []
  }

  /** Protocol errors and whatever else is no request leave transaction and database as they are. */
  lemma {:induction false} OnlyRequestsCount(table: TransactionalTable, db: Db, msgs: seq<Message>)
    ensures var o := Run(table, db, RequestsOf(msgs));
            RunMessages(table, db, msgs) == (o.state, o.db)
  {
    hide Handle;
    if msgs != [] {
      var init, m := msgs[..|msgs| - 1], msgs[|msgs| - 1];
      OnlyRequestsCount(table, db, init);
      if IsRequest(m) {
        var before, r := RequestsOf(init), Request(m.val.strs, m.status);
        assert (before + [r])[..|before + [r]| - 1] == before;
      } else {
        assert RequestsOf(msgs) == RequestsOf(init);
      }
    }
  }

  /** A command rejected before MULTI discards the transaction, however good its commands are. */
  lemma RejectionOutsideMultiDiscards(table: TransactionalTable, db: Db, bad: Request, multi: Request, exec: Request)
    requires Rejected(table, bad) && IsMulti(multi) && IsExec(exec)
    ensures var before := Run(table, db, [bad, multi]);
            Handle(table, before.state, before.db, exec) == Outcome(IDLE, db, DiscardedBefore())
  {
    hide RunQueue, Lower, ArgCountOk;
    MultiIsNotExec();
    var history := [bad, multi];
    assert history[..1] == [bad] && [bad][..0] == [];
    assert Run(table, db, []) == Outcome(IDLE, db, NullString);
    HandleState(table, IDLE, db, bad);
    assert Run(table, db, [bad]).db == db;
  }

  // ----- a transaction means its commands

  function Effects(table: TransactionalTable, req: Request, db: Db): Effect
    requires Accepted(table, req)
  {
    table[Name(req)].func(req.cmd, db)
  }

  predicate AllAccepted(table: TransactionalTable, cmds: seq<Request>) {
    forall i :: 0 <= i < |cmds| ==> Accepted(table, cmds[i]) && cmds[i].status.None?
  }

  /** The commands run one at a time outside a transaction. */
  function OneByOne(table: TransactionalTable, db: Db, cmds: seq<Request>): (r: (Db, seq<RedisValue>))
    requires AllAccepted(table, cmds)
  {
    if cmds == [] then (db, [])
    else
      var before := OneByOne(table, db, cmds[..|cmds| - 1]);
      var o := Handle(table, IDLE, before.0, cmds[|cmds| - 1]);
      (o.db, before.1 + [o.reply])
  }

  /** No command fails on the database before the transaction. */
  predicate NoErrors(table: TransactionalTable, db: Db, cmds: seq<Request>)
    requires AllAccepted(table, cmds)
  {
    forall i :: 0 <= i < |cmds| ==> !Effects(table, cmds[i], db).result.Error?
  }

  /** What the commands write and reply, all on the same database. */
  function AllOps(table: TransactionalTable, db: Db, cmds: seq<Request>): WriteBatch
    requires AllAccepted(table, cmds)
  {
    if cmds == [] then []
    else AllOps(table, db, cmds[..|cmds| - 1]) + Effects(table, cmds[|cmds| - 1], db).ops
  }

  function AllResults(table: TransactionalTable, db: Db, cmds: seq<Request>): seq<RedisValue>
    requires AllAccepted(table, cmds)
  {
    if cmds == [] then []
    else AllResults(table, db, cmds[..|cmds| - 1]) + [Effects(table, cmds[|cmds| - 1], db).result]
  }

  lemma {:induction false} QueueRuns(table: TransactionalTable, db: Db, cmds: seq<Request>)
    requires AllAccepted(table, cmds) && NoErrors(table, db, cmds)
    ensures RunQueue(AcceptedOf(table, cmds), db) ==
            Executed(AllResults(table, db, cmds), AllOps(table, db, cmds), false)
  {
    hide Accepted, ToQueue, Effects;
    if cmds != [] {
      var init, last := cmds[..|cmds| - 1], cmds[|cmds| - 1];
      QueueRuns(table, db, init);
      hide RunQueue;
      QueueStep(table, AcceptedOf(table, init), last, db);
    }
  }

  lemma ApplyNothing(db: Db)
    ensures Apply(db, []) == db
  {
  }

  lemma QueueStep(table: TransactionalTable, queue: seq<Queued>, req: Request, db: Db)
    requires Accepted(table, req) && !RunQueue(queue, db).failed
    requires !Effects(table, req, db).result.Error?
    ensures var x, e := RunQueue(queue, db), Effects(table, req, db);
            RunQueue(queue + [ToQueue(table, req)], db) == Executed(x.results + [e.result], x.batch + e.ops, false)
  {
    var q := queue + [ToQueue(table, req)];
    assert q[..|q| - 1] == queue;
  }

  lemma HandleAlone(table: TransactionalTable, db: Db, req: Request)
    requires Accepted(table, req) && req.status.None?
    ensures var e := Effects(table, req, db);
            Handle(table, IDLE, db, req) == Outcome(IDLE, Apply(db, e.ops), e.result)
  {
    assert Apply(db, []) == db;
  }

  lemma {:induction false} QueueFills(table: TransactionalTable, db: Db, start: TxState, cmds: seq<Request>)
    requires AllAccepted(table, cmds) && start == TxState(true, false, [])
    ensures RunFrom(table, start, db, cmds) == (TxState(true, false, AcceptedOf(table, cmds)), db)
  {
    hide Accepted, ToQueue, Handle;
    if cmds != [] {
      QueueFills(table, db, start, cmds[..|cmds| - 1]);
      HandleQueued(table, TxState(true, false, AcceptedOf(table, cmds[..|cmds| - 1])), db, cmds[|cmds| - 1]);
    }
  }

  lemma HandleQueued(table: TransactionalTable, st: TxState, db: Db, req: Request)
    requires Accepted(table, req) && st.inTransaction
    ensures Handle(table, st, db, req) ==
            Outcome(st.(queuedCommands := st.queuedCommands + [ToQueue(table, req)]), db, QueuedReply())
  {
  }

  function RunFrom(table: TransactionalTable, st: TxState, db: Db, cmds: seq<Request>): (TxState, Db)
    requires forall i :: 0 <= i < |cmds| ==> cmds[i].cmd != []
  {
    if cmds == [] then (st, db)
    else
      var before := RunFrom(table, st, db, cmds[..|cmds| - 1]);
      var o := Handle(table, before.0, before.1, cmds[|cmds| - 1]);
      (o.state, o.db)
  }

  /** The outcome of MULTI c1 .. cn EXEC on an idle handler. */
  function Transact(table: TransactionalTable, db: Db, multi: Request, cmds: seq<Request>, exec: Request): Outcome
    requires multi.cmd != [] && exec.cmd != [] && AllAccepted(table, cmds)
  {
    var begun := Handle(table, IDLE, db, multi);
    var filled := RunFrom(table, begun.state, begun.db, cmds);
    Handle(table, filled.0, filled.1, exec)
  }

  /** Without any condition on what the commands read: EXEC writes what they all write, and replies
      what they all reply, on the database before it. When one of them fails there, nothing is written. */
  lemma TransactionEffect(table: TransactionalTable, db: Db, multi: Request, cmds: seq<Request>, exec: Request)
    requires IsMulti(multi) && IsExec(exec) && exec.status.None?
    requires AllAccepted(table, cmds)
    ensures Transact(table, db, multi, cmds, exec) ==
            if NoErrors(table, db, cmds) then
              Outcome(IDLE, Apply(db, AllOps(table, db, cmds)), Array(AllResults(table, db, cmds)))
            else
              Outcome(IDLE, db, Error(Ascii("Transaction discarded because an error was encountered during execution")))
  {
    hide Transact, RunQueue, AcceptedOf, Lower, AllOps, AllResults, NoErrors, AllAccepted, Apply, Ascii;
    ExecOnFilledQueue(table, db, multi, cmds, exec);
    if NoErrors(table, db, cmds) {
      QueueRuns(table, db, cmds);
    } else {
      ErrorsFail(table, db, cmds);
    }
    ApplyNothing(db);
  }

  lemma ExecOnFilledQueue(table: TransactionalTable, db: Db, multi: Request, cmds: seq<Request>, exec: Request)
    requires IsMulti(multi) && IsExec(exec) && AllAccepted(table, cmds)
    ensures Transact(table, db, multi, cmds, exec) ==
            HandleExec(TxState(true, false, AcceptedOf(table, cmds)), db, exec.status)
  {
    hide HandleExec, HandleCommand, RunFrom, AcceptedOf, Lower, AllAccepted, Ascii;
    MultiIsNotExec();
    QueueFills(table, db, TxState(true, false, []), cmds);
  }

  lemma {:induction false} AcceptedAll(table: TransactionalTable, cmds: seq<Request>)
    requires AllAccepted(table, cmds)
    ensures |AcceptedOf(table, cmds)| == |cmds|
    ensures forall i :: 0 <= i < |cmds| ==> AcceptedOf(table, cmds)[i] == ToQueue(table, cmds[i])
  {
    hide Accepted, ToQueue;
    if cmds != [] {
      AcceptedAll(table, cmds[..|cmds| - 1]);
    }
  }

  lemma ErrorsFail(table: TransactionalTable, db: Db, cmds: seq<Request>)
    requires AllAccepted(table, cmds) && !NoErrors(table, db, cmds)
    ensures RunQueue(AcceptedOf(table, cmds), db).failed
  {
    hide RunQueue, AcceptedOf;
    AcceptedAll(table, cmds);
    var queue := AcceptedOf(table, cmds);
    var i :| 0 <= i < |cmds| && Effects(table, cmds[i], db).result.Error?;
    assert queue[i] == ToQueue(table, cmds[i]) && queue[i].func(queue[i].cmd, db).result.Error?;
    RunQueueExactly(queue, db);
  }

  // ----- when that is what the commands do one at a time

  /** Each command writes, on the database it meets one by one, what it writes on the database before
      the transaction. */
  ghost predicate SameOps(table: TransactionalTable, db: Db, cmds: seq<Request>)
    requires AllAccepted(table, cmds)
  {
    forall i :: 0 <= i < |cmds| ==>
      Effects(table, cmds[i], OneByOne(table, db, cmds[..i]).0).ops == Effects(table, cmds[i], db).ops
  }

  ghost predicate SameResults(table: TransactionalTable, db: Db, cmds: seq<Request>)
    requires AllAccepted(table, cmds)
  {
    forall i :: 0 <= i < |cmds| ==>
      Effects(table, cmds[i], OneByOne(table, db, cmds[..i]).0).result == Effects(table, cmds[i], db).result
  }

  lemma PrefixesOfInit<T>(s: seq<T>)
    requires s != []
    ensures forall i :: 0 <= i < |s| - 1 ==> s[..|s| - 1][i] == s[i] && s[..|s| - 1][..i] == s[..i]
  {
  }

  lemma {:induction false} SameOpsSameDatabase(table: TransactionalTable, db: Db, cmds: seq<Request>)
    requires AllAccepted(table, cmds) && SameOps(table, db, cmds)
    ensures OneByOne(table, db, cmds).0 == Apply(db, AllOps(table, db, cmds))
  {
    hide Accepted, Handle, Effects, Apply;
    if cmds == [] {
      ApplyNothing(db);
    } else {
      var init, last := cmds[..|cmds| - 1], cmds[|cmds| - 1];
      PrefixesOfInit(cmds);
      SameOpsSameDatabase(table, db, init);
      HandleAlone(table, OneByOne(table, db, init).0, last);
      ApplyAppend(db, AllOps(table, db, init), Effects(table, last, db).ops);
    }
  }

  lemma {:induction false} SameResultsSameReplies(table: TransactionalTable, db: Db, cmds: seq<Request>)
    requires AllAccepted(table, cmds) && SameResults(table, db, cmds)
    ensures OneByOne(table, db, cmds).1 == AllResults(table, db, cmds)
  {
    hide Accepted, Handle, Effects;
    if cmds != [] {
      var init, last := cmds[..|cmds| - 1], cmds[|cmds| - 1];
      PrefixesOfInit(cmds);
      SameResultsSameReplies(table, db, init);
      HandleAlone(table, OneByOne(table, db, init).0, last);
    }
  }

  // ----- what a caller can see beforehand: the keys a command reads

  ghost predicate AgreeOn(a: Db, b: Db, keys: iset<DbKey>) {
    forall k | k in keys :: (k in a <==> k in b) && (k in a && k in b ==> a[k] == b[k])
  }

  /** What the command writes depends on no other keys than these. */
  ghost predicate WritesFrom(table: TransactionalTable, req: Request, keys: iset<DbKey>)
    requires Accepted(table, req)
  {
    forall a: Db, b: Db | AgreeOn(a, b, keys) :: Effects(table, req, a).ops == Effects(table, req, b).ops
  }

  /** What the command replies depends on no other keys than these. */
  ghost predicate RepliesFrom(table: TransactionalTable, req: Request, keys: iset<DbKey>)
    requires Accepted(table, req)
  {
    forall a: Db, b: Db | AgreeOn(a, b, keys) :: Effects(table, req, a).result == Effects(table, req, b).result
  }

  ghost predicate AllWriteFrom(table: TransactionalTable, cmds: seq<Request>, inputs: seq<iset<DbKey>>)
    requires AllAccepted(table, cmds) && |inputs| == |cmds|
  {
    forall i :: 0 <= i < |cmds| ==> WritesFrom(table, cmds[i], inputs[i])
  }

  ghost predicate AllReplyFrom(table: TransactionalTable, cmds: seq<Request>, inputs: seq<iset<DbKey>>)
    requires AllAccepted(table, cmds) && |inputs| == |cmds|
  {
    forall i :: 0 <= i < |cmds| ==> RepliesFrom(table, cmds[i], inputs[i])
  }

  /** No command writes, on the database before the transaction, a key that a later one reads. */
  ghost predicate NoneWritesWhatALaterReads(table: TransactionalTable, db: Db, cmds: seq<Request>,
                                            inputs: seq<iset<DbKey>>)
    requires AllAccepted(table, cmds) && |inputs| == |cmds|
  {
    forall j, i :: 0 <= j < i < |cmds| ==>
      forall k | k in inputs[i] :: !Touches(Effects(table, cmds[j], db).ops, k)
  }

  lemma {:induction false} OpsSpareKey(table: TransactionalTable, db: Db, cmds: seq<Request>, k: DbKey)
    requires AllAccepted(table, cmds)
    requires forall j :: 0 <= j < |cmds| ==> !Touches(Effects(table, cmds[j], db).ops, k)
    ensures !Touches(AllOps(table, db, cmds), k)
  {
    hide Accepted, Effects;
    if cmds != [] {
      OpsSpareKey(table, db, cmds[..|cmds| - 1], k);
      TouchesAppend(AllOps(table, db, cmds[..|cmds| - 1]), Effects(table, cmds[|cmds| - 1], db).ops, k);
    }
  }

  lemma AgreeAfter(table: TransactionalTable, db: Db, cmds: seq<Request>, inputs: seq<iset<DbKey>>, i: nat)
    requires AllAccepted(table, cmds) && |inputs| == |cmds| && i < |cmds|
    requires NoneWritesWhatALaterReads(table, db, cmds, inputs)
    ensures AgreeOn(Apply(db, AllOps(table, db, cmds[..i])), db, inputs[i])
  {
    hide Accepted, Effects, Touches, Apply, AllOps;
    var before := cmds[..i];
    forall k | k in inputs[i] ensures !Touches(AllOps(table, db, before), k) {
      assert forall j :: 0 <= j < i ==> before[j] == cmds[j];
      OpsSpareKey(table, db, before, k);
    }
    forall k | k in inputs[i]
      ensures k in Apply(db, AllOps(table, db, before)) <==> k in db
      ensures k in db ==> k in Apply(db, AllOps(table, db, before)) && Apply(db, AllOps(table, db, before))[k] == db[k]
    {
      UntouchedKey(db, AllOps(table, db, before), k);
    }
  }

  lemma {:induction false} MeetsTheSame(table: TransactionalTable, db: Db, cmds: seq<Request>,
                                        inputs: seq<iset<DbKey>>, n: nat)
    requires AllAccepted(table, cmds) && |inputs| == |cmds| && n <= |cmds|
    requires AllWriteFrom(table, cmds, inputs) && NoneWritesWhatALaterReads(table, db, cmds, inputs)
    ensures forall i :: 0 <= i < n ==> AgreeOn(OneByOne(table, db, cmds[..i]).0, db, inputs[i])
    ensures AllAccepted(table, cmds[..n]) && SameOps(table, db, cmds[..n])
  {
    hide Accepted, Effects, OneByOne, AgreeOn, NoneWritesWhatALaterReads, AllOps, Apply;
    if n > 0 {
      var i := n - 1;
      MeetsTheSame(table, db, cmds, inputs, i);
      SameOpsSameDatabase(table, db, cmds[..i]);
      AgreeAfter(table, db, cmds, inputs, i);
      assert WritesFrom(table, cmds[i], inputs[i]);
      PrefixesOfInit(cmds[..n]);
      assert cmds[..n][..i] == cmds[..i];
    }
  }

  /** MULTI c1 .. cn EXEC leaves the database that c1 .. cn leave one at a time, when no command writes
      a key that what a later one writes depends on. The replies are the n results in order, on the
      database before the transaction; they are the replies of c1 .. cn one at a time when what a
      later one replies does not depend on such a key either. */
  lemma TransactionMeansItsCommands(table: TransactionalTable, db: Db, multi: Request, cmds: seq<Request>,
                                    exec: Request, inputs: seq<iset<DbKey>>)
    requires IsMulti(multi) && IsExec(exec) && exec.status.None?
    requires AllAccepted(table, cmds) && NoErrors(table, db, cmds)
    requires |inputs| == |cmds| && AllWriteFrom(table, cmds, inputs)
    requires NoneWritesWhatALaterReads(table, db, cmds, inputs)
    ensures var done := Transact(table, db, multi, cmds, exec);
            var alone := OneByOne(table, db, cmds);
            && done == Outcome(IDLE, alone.0, Array(AllResults(table, db, cmds)))
            && (AllReplyFrom(table, cmds, inputs) ==> done.reply == Array(alone.1))
  {
    hide Accepted, Effects, Transact, Apply, AllOps, OneByOne, IsMulti, IsExec, AgreeOn;
    TransactionEffect(table, db, multi, cmds, exec);
    MeetsTheSame(table, db, cmds, inputs, |cmds|);
    assert cmds[..|cmds|] == cmds;
    SameOpsSameDatabase(table, db, cmds);
    if AllReplyFrom(table, cmds, inputs) {
      forall i | 0 <= i < |cmds|
        ensures Effects(table, cmds[i], OneByOne(table, db, cmds[..i]).0).result == Effects(table, cmds[i], db).result
      {
        assert RepliesFrom(table, cmds[i], inputs[i]);
      }
      SameResultsSameReplies(table, db, cmds);
    }
  }

  /** A command that looks at the database: it sets its key, or deletes it when it is set. */
  function Toggle(k: DbKey): TransactionalHandler {
    TransactionalHandler((cmd: Command, db: Db) => Effect(Ok(), if k in db then [Delete(k)] else [Put(k, [])]), 0, 0)
  }

  lemma ToggleAlone(table: TransactionalTable, db: Db, k: DbKey, toggle: Request)
    requires Accepted(table, toggle) && toggle.status.None? && table[Name(toggle)] == Toggle(k)
    ensures Handle(table, IDLE, db, toggle) == Outcome(IDLE, if k in db then db - {k} else db[k := []], Ok())
  {
    hide Accepted, Handle, Apply;
    HandleAlone(table, db, toggle);
    ApplyOne(db, if k in db then Delete(k) else Put(k, []));
  }

  /** The condition is needed: inside a transaction a command sees none of the writes queued before
      it. Toggling a key twice alone changes nothing; in a transaction it sets the key. */
  lemma ReadersSeeTheOldDatabase(table: TransactionalTable, k: DbKey, toggle: Request)
    requires Accepted(table, toggle) && toggle.status.None? && table[Name(toggle)] == Toggle(k)
    ensures AllAccepted(table, [toggle, toggle])
    ensures k !in OneByOne(table, map[], [toggle, toggle]).0
    ensures var x := RunQueue(AcceptedOf(table, [toggle, toggle]), map[]); !x.failed && k in Apply(map[], x.batch)
  {
    hide Accepted, Handle, RunQueue, OneByOne, AcceptedOf, Apply;
    ToggleTwiceAlone(table, k, toggle);
    ToggleTwiceQueued(table, k, toggle);
  }

  lemma ToggleTwiceAlone(table: TransactionalTable, k: DbKey, toggle: Request)
    requires Accepted(table, toggle) && toggle.status.None? && table[Name(toggle)] == Toggle(k)
    ensures k !in OneByOne(table, map[], [toggle, toggle]).0
  {
    hide Accepted, Handle;
    var two := [toggle, toggle];
    assert two[..1] == [toggle] && [toggle][..0] == [];
    assert OneByOne(table, map[], []) == (map[], []);
    ToggleAlone(table, map[], k, toggle);
    ToggleAlone(table, map[k := []], k, toggle);
  }

  lemma ToggleTwiceQueued(table: TransactionalTable, k: DbKey, toggle: Request)
    requires Accepted(table, toggle) && toggle.status.None? && table[Name(toggle)] == Toggle(k)
    ensures var x := RunQueue(AcceptedOf(table, [toggle, toggle]), map[]); !x.failed && k in Apply(map[], x.batch)
  {
    hide Accepted;
    var q := ToQueue(table, toggle);
    AcceptedSnoc(table, [], toggle);
    AcceptedSnoc(table, [toggle], toggle);
    assert [] + [toggle] == [toggle] && [toggle] + [toggle] == [toggle, toggle];
    QueueStep(table, [], toggle, map[]);
    QueueStep(table, [q], toggle, map[]);
    assert [] + [q] == [q];
    hide RunQueue, AcceptedOf;
    ApplyAppend(map[], [Put(k, [])], [Put(k, [])]);
    ApplyOne(map[k := []], Put(k, []));
    ApplyOne(map[], Put(k, []));
  }

  function Setter(k: DbKey, value: bytes): TransactionalHandler {
    TransactionalHandler((cmd: Command, db: Db) => Effect(Ok(), [Put(k, value)]), 0, 0)
  }

  function Getter(k: DbKey): TransactionalHandler {
    TransactionalHandler((cmd: Command, db: Db) => Effect(if k in db then BulkString(db[k]) else NullString, []), 0, 0)
  }

  /** The two halves come apart: after a write and a read of one key the databases agree, and the
      replies do not, because the read inside the transaction misses the write. */
  lemma ReadMissesQueuedWrite(table: TransactionalTable, k: DbKey, value: bytes, multi: Request, set': Request,
                              get: Request, exec: Request)
    requires IsMulti(multi) && IsExec(exec) && exec.status.None?
    requires Accepted(table, set') && set'.status.None? && Accepted(table, get) && get.status.None?
    requires table[Name(set')] == Setter(k, value) && table[Name(get)] == Getter(k)
    ensures AllAccepted(table, [set', get])
    ensures var done, alone := Transact(table, map[], multi, [set', get], exec), OneByOne(table, map[], [set', get]);
            && done.db == alone.0
            && done.reply == Array([Ok(), NullString]) && alone.1 == [Ok(), BulkString(value)]
  {
    hide Transact, OneByOne, AllResults, IsMulti, IsExec;
    TransactionMeansItsCommands(table, map[], multi, [set', get], exec, [iset{}, iset{}]);
    SetThenGet(table, k, value, set', get);
  }

  lemma SetThenGet(table: TransactionalTable, k: DbKey, value: bytes, set': Request, get: Request)
    requires Accepted(table, set') && set'.status.None? && Accepted(table, get) && get.status.None?
    requires table[Name(set')] == Setter(k, value) && table[Name(get)] == Getter(k)
    ensures AllResults(table, map[], [set', get]) == [Ok(), NullString]
    ensures OneByOne(table, map[], [set', get]).1 == [Ok(), BulkString(value)]
  {
    hide Accepted, Handle, Apply;
    var cmds := [set', get];
    assert cmds[..1] == [set'] && [set'][..0] == [];
    assert AllResults(table, map[], [set']) == AllResults(table, map[], []) + [Ok()] == [Ok()];
    HandleAlone(table, map[], set');
    ApplyOne(map[], Put(k, value));
    assert OneByOne(table, map[], [set']) == (map[k := value], [] + [Ok()]);
    HandleAlone(table, map[k := value], get);
  }

  lemma ApplyOne(db: Db, op: Op<DbKey>)
    ensures Apply(db, [op]) == ApplyOp(db, op)
  {
    assert [op][..0] == [];
  }
}
