/**
 The reorder buffer of the asynchronous pipeline (pipeline/OrderedRedisMessageAdapter).

 Requests get consecutive keys as they arrive. Replies come in any order and leave in request
 order. A CHECK that fails ends the process; here the operation then returns None, or false.
 */
module OrderedAdapters {
  import opened Bytes
  import opened RedisValues

  datatype RedisMessage = RedisMessage(key: int, val: RedisValue)

  /** The handler context below the adapter: what was fired on it so far. */
  class Context {
    var written: seq<RedisMessage>

    constructor ()
      ensures written == []
    {
      written := [];
    }

    method FireWrite(msg: RedisMessage)
      modifies this
      ensures written == old(written) + [msg]
    {
      written := written + [msg];
    }
  }

  // ----- the adapter on values

  datatype Adapter = Adapter(startKey: int, pending: seq<RedisMessage>)

  /** What is fired and what stays once the fulfilled head of the queue has been flushed. */
  function Flushed(pending: seq<RedisMessage>): (k: nat)
    ensures k <= |pending|
    ensures forall i :: 0 <= i < k ==> !pending[i].val.AsyncResult?
    ensures k < |pending| ==> pending[k].val.AsyncResult?
  {
    if pending == [] || pending[0].val.AsyncResult? then 0 else 1 + Flushed(pending[1..])
  }

  function ReadStep(a: Adapter): Adapter {
    a.(pending := a.pending + [RedisMessage(a.startKey + |a.pending|, AsyncResult)])
  }

  predicate Acceptable(a: Adapter, msg: RedisMessage) {
    var index := msg.key - a.startKey;
    && 0 <= index < |a.pending|
    && a.pending[index].key == msg.key
    && a.pending[index].val.AsyncResult?
    && !msg.val.AsyncResult?
  }

  function WriteStep(a: Adapter, msg: RedisMessage): Option<(Adapter, seq<RedisMessage>)> {
    if msg.key == -1 then Some((a, [msg]))
    else if !Acceptable(a, msg) then None
    else
      var pending := a.pending[msg.key - a.startKey := a.pending[msg.key - a.startKey].(val := msg.val)];
      var k := Flushed(pending);
      Some((Adapter(a.startKey + k, pending[k..]), pending[..k]))
  }

  // ----- the adapter as the source runs it

  class OrderedRedisMessageAdapter {
    var startKey: int
    var pendingOutputs: seq<RedisMessage>

    constructor ()
      ensures View() == Adapter(0, [])
    {
      startKey, pendingOutputs := 0, [];
    }

    function View(): Adapter
      reads this
    {
      Adapter(startKey, pendingOutputs)
    }

    method Read(val: RedisValue) returns (msg: RedisMessage)
      modifies this
      ensures msg == RedisMessage(old(startKey + |pendingOutputs|), val)
      ensures View() == ReadStep(old(View()))
    {
      msg := RedisMessage(startKey + |pendingOutputs|, val);
      pendingOutputs := pendingOutputs + [RedisMessage(msg.key, AsyncResult)];
    }

    method Write(ctx: Context, msg: RedisMessage) returns (ok: bool)
      modifies this, ctx
      ensures match WriteStep(old(View()), msg)
              case None => !ok && View() == old(View()) && ctx.written == old(ctx.written)
              case Some((a, fired)) => ok && View() == a && ctx.written == old(ctx.written) + fired
    {
      hide Flushed;
      if msg.key == -1 {
        ctx.FireWrite(msg);
        return true;
      }
      var index := msg.key - startKey;
      if !(0 <= index < |pendingOutputs|) || pendingOutputs[index].key != msg.key {
        return false;
      }
      if !pendingOutputs[index].val.AsyncResult? || msg.val.AsyncResult? {
        return false;
      }
      pendingOutputs := pendingOutputs[index := RedisMessage(msg.key, msg.val)];
      Flush(ctx);
      return true;
    }

    /** The loop at the end of write. */
    method Flush(ctx: Context)
      modifies this, ctx
      ensures var pending := old(pendingOutputs);
              var k := Flushed(pending);
              && View() == Adapter(old(startKey) + k, pending[k..])
              && ctx.written == old(ctx.written) + pending[..k]
    {
      ghost var pending, done := pendingOutputs, 0;
      while pendingOutputs != []
        invariant 0 <= done <= |pending| && pendingOutputs == pending[done..]
        invariant startKey == old(startKey) + done
        invariant ctx.written == old(ctx.written) + pending[..done]
        invariant Flushed(pending) == done + Flushed(pendingOutputs)
        decreases |pendingOutputs|
      {
        if pendingOutputs[0].val.AsyncResult? {
          return;
        }
        assert pending[done..][0] == pending[done] && pending[done..][1..] == pending[done + 1..];
        assert pending[..done] + [pending[done]] == pending[..done + 1];
        ctx.FireWrite(pendingOutputs[0]);
        pendingOutputs := pendingOutputs[1..];
        startKey := startKey + 1;
        done := done + 1;
      }
    }
  }

  // ----- runs

  datatype Event = Arrive | Answer(msg: RedisMessage)
  datatype State = State(adapter: Adapter, fired: seq<RedisMessage>)

  const INITIAL: State := State(Adapter(0, []), [])

  function Next(s: State, e: Event): Option<State> {
    match e
    case Arrive => Some(s.(adapter := ReadStep(s.adapter)))
    case Answer(msg) =>
      match WriteStep(s.adapter, msg)
      case None => None
      case Some((a, fired)) => Some(State(a, s.fired + fired))
  }

  function Run(events: seq<Event>): Option<State> {
    if events == [] then Some(INITIAL)
    else
      var e := events[|events| - 1];
      match Run(events[..|events| - 1])
      case None => None
      case Some(s) => Next(s, e)
  }

  // ----- what a run should have done, read off its events alone

  function Arrived(events: seq<Event>): nat {
    if events == [] then 0
    else Arrived(events[..|events| - 1]) + if events[|events| - 1].Arrive? then 1 else 0
  }

  function Answers(events: seq<Event>): map<int, RedisValue> {
    if events == [] then map[]
    else
      var answers := Answers(events[..|events| - 1]);
      match events[|events| - 1]
      case Arrive => answers
      case Answer(msg) => if msg.key == -1 then answers else answers[msg.key := msg.val]
  }

  /** Every keyed answer is for a request that has arrived and has no answer yet, and is a value. */
  predicate Legal(events: seq<Event>) {
    events == [] ||
    (var before := events[..|events| - 1];
     Legal(before) &&
     match events[|events| - 1]
     case Arrive => true
     case Answer(msg) =>
       msg.key == -1 ||
       (0 <= msg.key < Arrived(before) && msg.key !in Answers(before) && !msg.val.AsyncResult?))
  }

  /** The messages that answer a request, without the ones that bypass the order. */
  function Keyed(msgs: seq<RedisMessage>): seq<RedisMessage> {
    if msgs == [] then []
    else Keyed(msgs[..|msgs| - 1]) + if msgs[|msgs| - 1].key == -1 then [] else [msgs[|msgs| - 1]]
  }

  lemma {:induction false} KeyedAppend(a: seq<RedisMessage>, b: seq<RedisMessage>)
    ensures Keyed(a + b) == Keyed(a) + Keyed(b)
  {
    if b == [] {
      assert a + b == a;
    } else {
      assert (a + b)[..|a + b| - 1] == a + b[..|b| - 1];
      KeyedAppend(a, b[..|b| - 1]);
    }
  }

  lemma {:induction false} KeyedAll(msgs: seq<RedisMessage>)
    requires forall i :: 0 <= i < |msgs| ==> msgs[i].key != -1
    ensures Keyed(msgs) == msgs
  {
    if msgs != [] {
      KeyedAll(msgs[..|msgs| - 1]);
    }
  }

  predicate AnsweredUpTo(answers: map<int, RedisValue>, n: int) {
    forall k :: 0 <= k < n ==> k in answers
  }

  /** The replies to the first n requests, in request order. */
  function Replies(answers: map<int, RedisValue>, n: nat): (r: seq<RedisMessage>)
    requires AnsweredUpTo(answers, n)
    ensures |r| == n
    ensures forall i :: 0 <= i < n ==> r[i] == RedisMessage(i, answers[i])
  {
    seq(n, i requires 0 <= i < n => RedisMessage(i, answers[i]))
  }

  function Slot(answers: map<int, RedisValue>, k: int): RedisMessage {
    RedisMessage(k, if k in answers then answers[k] else AsyncResult)
  }

  /** The invariant: everything before startKey has been sent in order, the rest waits in order,
      and what waits is waiting for its own head. */
  ghost predicate Inv(s: State, n: nat, answers: map<int, RedisValue>) {
    var a := s.adapter;
    && 0 <= a.startKey && a.startKey + |a.pending| == n
    && Waiting(a.pending, a.startKey, answers)
    && (a.pending == [] || a.startKey !in answers)
    && AnsweredUpTo(answers, a.startKey)
    && Keyed(s.fired) == Replies(answers, a.startKey)
    && (forall k | k in answers :: 0 <= k < n)
    && Values(answers)
  }

  ghost predicate Waiting(pending: seq<RedisMessage>, start: int, answers: map<int, RedisValue>) {
    forall i :: 0 <= i < |pending| ==> pending[i] == Slot(answers, start + i)
  }

  ghost predicate Values(answers: map<int, RedisValue>) {
    forall k | k in answers :: !answers[k].AsyncResult?
  }

  lemma WaitingSuffix(pending: seq<RedisMessage>, start: int, answers: map<int, RedisValue>, k: nat)
    requires Waiting(pending, start, answers) && k <= |pending|
    ensures Waiting(pending[k..], start + k, answers)
  {
    forall i | 0 <= i < |pending[k..]| ensures pending[k..][i] == Slot(answers, start + k + i) {
      assert pending[k..][i] == pending[k + i];
    }
  }

  lemma FlushedAreAnswered(pending: seq<RedisMessage>, start: nat, answers: map<int, RedisValue>)
    requires Waiting(pending, start, answers) && AnsweredUpTo(answers, start) && Values(answers)
    ensures var k := Flushed(pending);
            && AnsweredUpTo(answers, start + k)
            && (k < |pending| ==> start + k !in answers)
  {
    hide Flushed;
    var k := Flushed(pending);
    forall j | 0 <= j < start + k ensures j in answers {
      if j >= start {
        assert pending[j - start] == Slot(answers, j);
      }
    }
    if k < |pending| {
      assert pending[k] == Slot(answers, start + k);
    }
  }

  lemma RepliesExtend(pending: seq<RedisMessage>, start: nat, answers: map<int, RedisValue>, k: nat)
    requires Waiting(pending, start, answers) && k <= |pending| && AnsweredUpTo(answers, start + k)
    ensures Replies(answers, start) + pending[..k] == Replies(answers, start + k)
  {
    var r := Replies(answers, start) + pending[..k];
    forall i | 0 <= i < start + k ensures r[i] == RedisMessage(i, answers[i]) {
      if i >= start {
        assert r[i] == pending[i - start] == Slot(answers, i);
      }
    }
  }

  lemma FlushKeeps(s: State, n: nat, answers: map<int, RedisValue>)
    requires var a := s.adapter;
             && 0 <= a.startKey && a.startKey + |a.pending| == n
             && Waiting(a.pending, a.startKey, answers)
             && AnsweredUpTo(answers, a.startKey) && Values(answers)
             && Keyed(s.fired) == Replies(answers, a.startKey)
             && (forall k | k in answers :: 0 <= k < n)
    ensures var a := s.adapter;
            var k := Flushed(a.pending);
            Inv(State(Adapter(a.startKey + k, a.pending[k..]), s.fired + a.pending[..k]), n, answers)
  {
    hide Flushed, Replies, Keyed, AnsweredUpTo, Values;
    var a := s.adapter;
    var k := Flushed(a.pending);
    var fired := a.pending[..k];
    FlushedAreAnswered(a.pending, a.startKey, answers);
    RepliesExtend(a.pending, a.startKey, answers, k);
    WaitingSuffix(a.pending, a.startKey, answers, k);
    KeyedAppend(s.fired, fired);
    forall i | 0 <= i < |fired| ensures fired[i].key != -1 {
      assert a.pending[i] == Slot(answers, a.startKey + i);
    }
    KeyedAll(fired);
  }

  lemma AnswerKeeps(s: State, n: nat, answers: map<int, RedisValue>, msg: RedisMessage)
    requires Inv(s, n, answers) && msg.key != -1
    requires 0 <= msg.key < n && msg.key !in answers && !msg.val.AsyncResult?
    ensures Next(s, Answer(msg)).Some?
    ensures Inv(Next(s, Answer(msg)).value, n, answers[msg.key := msg.val])
  {
    hide Keyed, Flushed, Replies;
    var a, answers' := s.adapter, answers[msg.key := msg.val];
    assert msg.key >= a.startKey;
    var pending := a.pending[msg.key - a.startKey := RedisMessage(msg.key, msg.val)];
    WaitingUpdate(a.pending, a.startKey, answers, msg);
    RepliesUpdate(answers, a.startKey, msg);
    FlushKeeps(State(Adapter(a.startKey, pending), s.fired), n, answers');
    hide Inv;
    var k := Flushed(pending);
    assert WriteStep(a, msg) == Some((Adapter(a.startKey + k, pending[k..]), pending[..k]));
  }

  lemma WaitingUpdate(pending: seq<RedisMessage>, start: int, answers: map<int, RedisValue>, msg: RedisMessage)
    requires Waiting(pending, start, answers) && 0 <= msg.key - start < |pending|
    ensures pending[msg.key - start] == Slot(answers, msg.key)
    ensures Waiting(pending[msg.key - start := RedisMessage(msg.key, msg.val)], start, answers[msg.key := msg.val])
  {
    var pending' := pending[msg.key - start := RedisMessage(msg.key, msg.val)];
    forall i | 0 <= i < |pending'| ensures pending'[i] == Slot(answers[msg.key := msg.val], start + i) {
      assert pending[i] == Slot(answers, start + i);
    }
  }

  lemma RepliesUpdate(answers: map<int, RedisValue>, n: nat, msg: RedisMessage)
    requires AnsweredUpTo(answers, n) && msg.key >= n
    ensures AnsweredUpTo(answers[msg.key := msg.val], n)
    ensures Replies(answers[msg.key := msg.val], n) == Replies(answers, n)
  {
  }

  lemma BypassKeeps(s: State, n: nat, answers: map<int, RedisValue>, msg: RedisMessage)
    requires Inv(s, n, answers) && msg.key == -1
    ensures Next(s, Answer(msg)).Some? && Inv(Next(s, Answer(msg)).value, n, answers)
  {
    KeyedAppend(s.fired, [msg]);
    assert Keyed([msg]) == [];
  }

  lemma AnswerRefused(s: State, n: nat, answers: map<int, RedisValue>, msg: RedisMessage)
    requires Inv(s, n, answers) && msg.key != -1
    requires !(0 <= msg.key < n && msg.key !in answers && !msg.val.AsyncResult?)
    ensures Next(s, Answer(msg)) == None
  {
    var index := msg.key - s.adapter.startKey;
    if 0 <= index < |s.adapter.pending| {
      assert s.adapter.pending[index] == Slot(answers, msg.key);
    }
  }

  /** No CHECK fails exactly when the run is legal, and a legal run keeps the invariant. */
  lemma {:induction false} RunIsCanonical(events: seq<Event>)
    ensures Run(events).Some? <==> Legal(events)
    ensures Legal(events) ==> Inv(Run(events).value, Arrived(events), Answers(events))
  {
    hide Inv, Next;
    if events == [] {
      InitialInv();
    } else {
      var before, e := events[..|events| - 1], events[|events| - 1];
      RunIsCanonical(before);
      if Legal(before) {
        var s := Run(before).value;
        match e
        case Arrive => ArriveKeeps(s, Arrived(before), Answers(before));
        case Answer(msg) =>
          if msg.key == -1 {
            BypassKeeps(s, Arrived(before), Answers(before), msg);
          } else if 0 <= msg.key < Arrived(before) && msg.key !in Answers(before) && !msg.val.AsyncResult? {
            AnswerKeeps(s, Arrived(before), Answers(before), msg);
          } else {
            AnswerRefused(s, Arrived(before), Answers(before), msg);
          }
      }
    }
  }

  lemma InitialInv()
    ensures Inv(INITIAL, 0, map[])
  {
  }

  lemma ArriveKeeps(s: State, n: nat, answers: map<int, RedisValue>)
    requires Inv(s, n, answers)
    ensures Next(s, Arrive).Some? && Inv(Next(s, Arrive).value, n + 1, answers)
  {
    assert n !in answers;
  }

  /** At every point of every legal run: the replies sent are those to requests 0, 1, ...,
      startKey - 1 in this order, and request startKey, if it has arrived, has no answer yet. */
  lemma OutputIsOrdered(events: seq<Event>)
    requires Legal(events)
    ensures Run(events).Some?
    ensures var s := Run(events).value;
            var sent := s.adapter.startKey;
            && 0 <= sent <= Arrived(events) && AnsweredUpTo(Answers(events), sent)
            && Keyed(s.fired) == Replies(Answers(events), sent)
            && (sent < Arrived(events) ==> sent !in Answers(events))
  {
    RunIsCanonical(events);
  }

  lemma InvDetermines(s: State, t: State, n: nat, answers: map<int, RedisValue>)
    requires Inv(s, n, answers) && Inv(t, n, answers)
    ensures s.adapter == t.adapter && Keyed(s.fired) == Keyed(t.fired)
  {
    var a, b := s.adapter, t.adapter;
    assert a.startKey == b.startKey;
    assert a.pending == b.pending;
  }

  /** The state is a function of which answers have come, not of their order. */
  lemma OrderOfAnswersIsIrrelevant(e1: seq<Event>, e2: seq<Event>)
    requires Legal(e1) && Legal(e2)
    requires Arrived(e1) == Arrived(e2) && Answers(e1) == Answers(e2)
    ensures Run(e1).Some? && Run(e2).Some?
    ensures Run(e1).value.adapter == Run(e2).value.adapter
    ensures Keyed(Run(e1).value.fired) == Keyed(Run(e2).value.fired)
  {
    RunIsCanonical(e1);
    RunIsCanonical(e2);
    InvDetermines(Run(e1).value, Run(e2).value, Arrived(e1), Answers(e1));
  }

  lemma {:induction false} ArrivedCounts(events: seq<Event>)
    ensures Arrived(events) == multiset(events)[Arrive]
  {
    if events != [] {
      assert events == events[..|events| - 1] + [events[|events| - 1]];
      ArrivedCounts(events[..|events| - 1]);
    }
  }

  lemma {:induction false} AnswersOf(events: seq<Event>, k: int, v: RedisValue)
    requires Legal(events) && k != -1
    ensures (k in Answers(events) && Answers(events)[k] == v) <==> Answer(RedisMessage(k, v)) in events
  {
    if events != [] {
      var before, e := events[..|events| - 1], events[|events| - 1];
      assert events == before + [e];
      AnswersOf(before, k, v);
      if e.Answer? && e.msg.key == k {
        assert k !in Answers(before);
      }
    }
  }

  /** Any legal reordering of the same arrivals and answers sends the same replies. */
  lemma PermutedRunsAgree(e1: seq<Event>, e2: seq<Event>)
    requires Legal(e1) && Legal(e2) && multiset(e1) == multiset(e2)
    ensures Run(e1).Some? && Run(e2).Some?
    ensures Keyed(Run(e1).value.fired) == Keyed(Run(e2).value.fired)
  {
    SameAnswers(e1, e2);
    ArrivedCounts(e1);
    ArrivedCounts(e2);
    OrderOfAnswersIsIrrelevant(e1, e2);
  }

  lemma {:induction false} NoAnswerForBypass(events: seq<Event>)
    ensures -1 !in Answers(events)
  {
    if events != [] {
      NoAnswerForBypass(events[..|events| - 1]);
    }
  }

  lemma SameAnswers(e1: seq<Event>, e2: seq<Event>)
    requires Legal(e1) && Legal(e2) && multiset(e1) == multiset(e2)
    ensures Answers(e1) == Answers(e2)
  {
    hide Answers, Legal;
    NoAnswerForBypass(e1);
    NoAnswerForBypass(e2);
    assert forall e :: e in e1 <==> e in multiset(e1);
    assert forall e :: e in e2 <==> e in multiset(e2);
    forall k | k in Answers(e1) ensures k in Answers(e2) && Answers(e2)[k] == Answers(e1)[k] {
      AnswersOf(e1, k, Answers(e1)[k]);
      AnswersOf(e2, k, Answers(e1)[k]);
    }
    forall k | k in Answers(e2) ensures k in Answers(e1) {
      AnswersOf(e1, k, Answers(e2)[k]);
      AnswersOf(e2, k, Answers(e2)[k]);
    }
  }
}
