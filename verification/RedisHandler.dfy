/**
 How a handler answers one decoded message (pipeline/RedisHandler, pipeline/AsyncRedisHandler).

 Command bodies are functions of the message key and the command; a body that reads the database
 or any other state is covered, since no two messages of an ordered connection have the same key.
 */
module RedisHandlers {
  import opened Bytes
  import opened RedisValues
  import opened RedisDecoders
  import opened ByteStreams
  import opened OrderedAdapters

  type Command = seq<bytes>

  datatype CommandHandler = CommandHandler(func: (int, Command) -> RedisValue, minArgs: int, maxArgs: int)
  type HandlerTable = map<bytes, CommandHandler>

  function LowerByte(c: byte): byte {
    if 65 <= c <= 90 then c + 32 else c
  }

  /** boost::to_lower_copy in the C locale. */
  function Lower(s: bytes): (r: bytes)
    ensures |r| == |s|
  {
    seq(|s|, i requires 0 <= i < |s| => LowerByte(s[i]))
  }

  /** validateArgCount: -1 switches a bound off. */
  predicate ArgCountOk(cmd: Command, minArgs: int, maxArgs: int) {
    var numArgs := |cmd| - 1;
    (minArgs == -1 && maxArgs == -1) ||
    ((minArgs == -1 || numArgs >= minArgs) && (maxArgs == -1 || numArgs <= maxArgs))
  }

  /** A bound of -1 is none; the command name does not count. */
  lemma ArgCounts(cmd: Command, minArgs: int, maxArgs: int)
    ensures ArgCountOk(cmd, minArgs, maxArgs) <==>
            (minArgs == -1 || minArgs <= |cmd| - 1) && (maxArgs == -1 || |cmd| - 1 <= maxArgs)
  {
  }

  /** The two cases of one letter. */
  predicate OtherCase(c: byte, d: byte) {
    (65 <= c <= 90 && d == c + 32) || (65 <= d <= 90 && c == d + 32)
  }

  /** Names are the same to the table exactly when they differ at most in the case of letters, and the
      name in lower case stands for all of them. */
  lemma NamesFoldCase(s: bytes, t: bytes)
    ensures Lower(s) == Lower(t) <==>
            |s| == |t| && forall i :: 0 <= i < |s| ==> s[i] == t[i] || OtherCase(s[i], t[i])
    ensures Lower(s) == s <==> forall i :: 0 <= i < |s| ==> !(65 <= s[i] <= 90)
  {
    var a, b := Lower(s), Lower(t);
    if a == b {
      forall i | 0 <= i < |s| ensures s[i] == t[i] || OtherCase(s[i], t[i]) {
        assert a[i] == b[i];
      }
    }
    if a == s {
      forall i | 0 <= i < |s| ensures !(65 <= s[i] <= 90) {
        assert a[i] == s[i];
      }
    }
  }

  function WrongNumArgs(name: bytes): RedisValue {
    Error(Ascii("Wrong number of arguments for '") + name + Ascii("' command"))
  }

  function UnknownCommand(name: bytes): RedisValue {
    Error(Ascii("Unknown command: '") + name + Ascii("'"))
  }

  function NotRedisArray(): RedisValue {
    Error(Ascii("Not a Redis Array of Bulk String"))
  }

  /** What one message causes: one keyed reply now, a reply later, nothing at all, or the end of
      the process. */
  datatype Reaction = Reply(val: RedisValue) | Deferred | Silent | Crash

  /** processCommandHandlerResult */
  function ProcessResult(allowAsync: bool, result: RedisValue): Reaction {
    if !result.AsyncResult? then Reply(result) else if allowAsync then Deferred else Crash
  }

  predicate Runs(table: HandlerTable, cmd: Command) {
    cmd != [] && Lower(cmd[0]) in table &&
    var h := table[Lower(cmd[0])];
    ArgCountOk(cmd, h.minArgs, h.maxArgs)
  }

  function React(table: HandlerTable, allowAsync: bool, req: RedisMessage): (r: Reaction)
    ensures r.Reply? ==> !r.val.AsyncResult?
  {
    match req.val
    case Error(_) => Reply(req.val)
    case BulkStringArray(cmd) =>
      if cmd == [] then Silent
      else
        var name := Lower(cmd[0]);
        if name !in table then Reply(UnknownCommand(name))
        else if !Runs(table, cmd) then Reply(WrongNumArgs(name))
        else ProcessResult(allowAsync, table[name].func(req.key, cmd))
    case _ => Reply(NotRedisArray())
  }

  class RedisHandler {
    const table: HandlerTable
    const allowAsync: bool

    constructor (table: HandlerTable, allowAsync: bool)
      ensures this.table == table && this.allowAsync == allowAsync
    {
      this.table, this.allowAsync := table, allowAsync;
    }

    /** read: false is a failed CHECK. */
    method Read(ctx: Context, req: RedisMessage) returns (alive: bool)
      modifies ctx
      ensures var r := React(table, allowAsync, req);
              && alive == !r.Crash?
              && ctx.written == old(ctx.written) + if r.Reply? then [RedisMessage(req.key, r.val)] else []
      ensures req.val.Error? ==> ctx.written == old(ctx.written) + [req]
      ensures !req.val.Error? && !req.val.BulkStringArray? ==>
                ctx.written == old(ctx.written) +
                               [RedisMessage(req.key, Error(Ascii("Not a Redis Array of Bulk String")))]
    {
      if req.val.Error? {
        ctx.FireWrite(req);
        return true;
      }
      if !req.val.BulkStringArray? {
        ctx.FireWrite(RedisMessage(req.key, NotRedisArray()));
        return true;
      }
      var cmd := req.val.strs;
      if cmd == [] {
        return true;
      }
      var name := Lower(cmd[0]);
      var handled;
      handled, alive := HandleCommand(ctx, req.key, name, cmd);
      if !handled {
        ctx.FireWrite(RedisMessage(req.key, UnknownCommand(name)));
      }
    }

    /** handleCommand: an unknown command is not handled, a wrong argument count is. */
    method HandleCommand(ctx: Context, key: int, name: bytes, cmd: Command) returns (handled: bool, alive: bool)
      requires cmd != [] && name == Lower(cmd[0])
      modifies ctx
      ensures handled <==> name in table
      ensures !handled ==> alive && ctx.written == old(ctx.written)
      ensures handled && !ArgCountOk(cmd, table[name].minArgs, table[name].maxArgs) ==>
                && alive
                && ctx.written == old(ctx.written) + [RedisMessage(key, WrongNumArgs(name))]
      ensures handled && ArgCountOk(cmd, table[name].minArgs, table[name].maxArgs) ==>
                var result := table[name].func(key, cmd);
                && alive == (allowAsync || !result.AsyncResult?)
                && ctx.written == old(ctx.written) + if result.AsyncResult? then [] else [RedisMessage(key, result)]
    {
      alive := true;
      if name !in table {
        return false, true;
      }
      var h := table[name];
      if !ArgCountOk(cmd, h.minArgs, h.maxArgs) {
        ctx.FireWrite(RedisMessage(key, WrongNumArgs(name)));
        return true, true;
      }
      var result := h.func(key, cmd);
      if result.AsyncResult? {
        return true, allowAsync;
      }
      ctx.FireWrite(RedisMessage(key, result));
      return true, true;
    }
  }

  /** The message runs a handler, and the handler puts its reply off. */
  predicate AsksForAsync(table: HandlerTable, key: int, v: RedisValue) {
    v.BulkStringArray? && Runs(table, v.strs) && table[Lower(v.strs[0])].func(key, v.strs).AsyncResult?
  }

  /** Every message the decoder can emit is answered exactly once: by one keyed reply, or later
      when an asynchronous handler ran and said so. A message is swallowed only when it is an
      empty request, which the decoder never emits. */
  lemma ExactlyOneReply(b: bytes, table: HandlerTable, allowAsync: bool, key: int)
    requires Decode(b).Emit?
    ensures var v := Decode(b).value;
            var r := React(table, allowAsync, RedisMessage(key, v));
            var asks := AsksForAsync(table, key, v);
            && (r.Reply? <==> !asks)
            && (r.Deferred? <==> asks && allowAsync)
            && (r.Crash? <==> asks && !allowAsync)
  {
    hide Decode, Lower, ArgCountOk;
    DecodeEmits(b);
  }

  /** Only an empty request is swallowed. */
  lemma SilentOnlyWhenEmpty(table: HandlerTable, allowAsync: bool, req: RedisMessage)
    ensures React(table, allowAsync, req).Silent? <==> req.val == BulkStringArray([])
  {
  }

  /** No request of a byte stream is swallowed: whatever the bytes are, each message they decode to
      is answered, by a reply at once or, when a handler asks for it, later. */
  lemma StreamIsAnswered(b: bytes, i: nat, table: HandlerTable, allowAsync: bool, key: int)
    requires i < |DecodeAll(b).values|
    ensures var v := DecodeAll(b).values[i];
            var r := React(table, allowAsync, RedisMessage(key, v));
            && !r.Silent?
            && (r.Reply? <==> !AsksForAsync(table, key, v))
            && (r.Deferred? <==> AsksForAsync(table, key, v) && allowAsync)
  {
    hide DecodeAll, Lower, ArgCountOk;
    DecodedValues(b, i);
    SilentOnlyWhenEmpty(table, allowAsync, RedisMessage(key, DecodeAll(b).values[i]));
  }
}
