/**
 One connection of the asynchronous pipeline (pipeline/RedisPipelineFactory): decoder, encoder,
 reorder buffer and handler put together. Bytes arrive in chunks, handlers answer at once or
 later and in any order, replies are encoded as they leave the reorder buffer.
 */
module Pipelines {
  import opened Bytes
  import opened RedisValues
  import opened ByteStreams
  import OA = OrderedAdapters
  import opened RespReaders
  import opened RedisHandlers

  datatype PipelineEvent =
    | Chunk(b: bytes)
    | Complete(key: int, val: RedisValue)

  datatype Connection = Connection(left: bytes, state: OA.State)

  function Msg(key: int, val: RedisValue): OA.RedisMessage {
    OA.RedisMessage(key, val)
  }

  /** One decoded message passes the reorder buffer, then the handler; a reply at once goes
      straight back. */
  function DeliverOne(table: HandlerTable, s: OA.State, v: RedisValue): Option<OA.State> {
    var key := s.adapter.startKey + |s.adapter.pending|;
    match OA.Next(s, OA.Arrive)
    case None => None
    case Some(s1) =>
      match React(table, true, Msg(key, v))
      case Reply(r) => OA.Next(s1, OA.Answer(Msg(key, r)))
      case Deferred => Some(s1)
      case Silent => Some(s1)
      case Crash => None
  }

  function Deliver(table: HandlerTable, s: OA.State, values: seq<RedisValue>): Option<OA.State> {
    if values == [] then Some(s)
    else
      match Deliver(table, s, values[..|values| - 1])
      case None => None
      case Some(s1) => DeliverOne(table, s1, values[|values| - 1])
  }

  /** The encoder sits below the reorder buffer: a fired message it cannot encode ends the process. */
  predicate CanEncode(before: OA.State, after: OA.State) {
    forall i :: |before.fired| <= i < |after.fired| ==> Encodable(after.fired[i].val)
  }

  function Encoded(c: Connection, left: bytes, after: Option<OA.State>): Option<Connection> {
    if after.Some? && CanEncode(c.state, after.value) then Some(Connection(left, after.value)) else None
  }

  function Next(table: HandlerTable, c: Connection, e: PipelineEvent): Option<Connection> {
    match e
    case Chunk(b) =>
      var d := DecodeAll(c.left + b);
      Encoded(c, d.left, Deliver(table, c.state, d.values))
    case Complete(key, val) => Encoded(c, c.left, OA.Next(c.state, OA.Answer(Msg(key, val))))
  }

  function Run(table: HandlerTable, events: seq<PipelineEvent>): Option<Connection> {
    if events == [] then Some(Connection([], OA.INITIAL))
    else
      match Run(table, events[..|events| - 1])
      case None => None
      case Some(c) => Next(table, c, events[|events| - 1])
  }

  // ----- the same run, read off its events alone

  function Input(events: seq<PipelineEvent>): bytes {
    if events == [] then []
    else Input(events[..|events| - 1]) + (match events[|events| - 1] case Chunk(b) => b case _ => [])
  }

  function Requests(events: seq<PipelineEvent>): seq<RedisValue> {
    DecodeAll(Input(events)).values
  }

  function Completions(events: seq<PipelineEvent>): map<int, RedisValue> {
    if events == [] then map[]
    else
      var m := Completions(events[..|events| - 1]);
      match events[|events| - 1]
      case Chunk(_) => m
      case Complete(key, val) => if key == -1 then m else m[key := val]
  }

  /** The reaction to request k, when the requests from number n on are `values`. */
  function ReactionTo(table: HandlerTable, n: int, values: seq<RedisValue>, k: int): Reaction
    requires n <= k < n + |values|
  {
    React(table, true, Msg(k, values[k - n]))
  }

  /** The replies given at once to requests numbered from n on. */
  function SyncReplies(table: HandlerTable, n: int, values: seq<RedisValue>): map<int, RedisValue> {
    map k | n <= k < n + |values| && ReactionTo(table, n, values, k).Reply? :: ReactionTo(table, n, values, k).val
  }

  /** The reply to each request that has one. */
  function Answered(table: HandlerTable, events: seq<PipelineEvent>): map<int, RedisValue> {
    SyncReplies(table, 0, Requests(events)) + Completions(events)
  }

  /** A completion is for a request that has arrived and has no reply yet, or bypasses the order. */
  predicate LegalCompletion(table: HandlerTable, before: seq<PipelineEvent>, key: int, val: RedisValue) {
    if key == -1 then Encodable(val)
    else 0 <= key < |Requests(before)| && key !in Answered(table, before) && !val.AsyncResult?
  }

  /** Every reply whose turn has come, because all requests up to it have one, can be encoded. A reply
      that still waits for its turn may be anything but an asynchronous result itself. */
  predicate SentAreEncodable(answers: map<int, RedisValue>, n: nat) {
    forall k :: 0 <= k < n && OA.AnsweredUpTo(answers, k + 1) ==> Encodable(answers[k])
  }

  predicate Legal(table: HandlerTable, events: seq<PipelineEvent>) {
    events == [] ||
    (var before := events[..|events| - 1];
     && Legal(table, before)
     && SentAreEncodable(Answered(table, events), |Requests(events)|)
     && match events[|events| - 1]
        case Chunk(_) => true
        case Complete(key, val) => LegalCompletion(table, before, key, val))
  }

  // ----- the two agree

  lemma DeliverOneKeeps(table: HandlerTable, s: OA.State, n: nat, answers: map<int, RedisValue>, v: RedisValue)
    requires OA.Inv(s, n, answers)
    ensures var r := React(table, true, Msg(n, v));
            && DeliverOne(table, s, v).Some?
            && OA.Inv(DeliverOne(table, s, v).value, n + 1, if r.Reply? then answers[n := r.val] else answers)
  {
    hide React, OA.Inv, OA.Next;
    NextKey(s, n, answers);
    OA.ArriveKeeps(s, n, answers);
    var s1 := OA.Next(s, OA.Arrive).value;
    NeverCrashes(table, Msg(n, v));
    var r := React(table, true, Msg(n, v));
    if r.Reply? {
      OA.AnswerKeeps(s1, n + 1, answers, Msg(n, r.val));
    }
  }

  lemma NextKey(s: OA.State, n: nat, answers: map<int, RedisValue>)
    requires OA.Inv(s, n, answers)
    ensures s.adapter.startKey + |s.adapter.pending| == n && n !in answers
  {
  }

  lemma NeverCrashes(table: HandlerTable, req: OA.RedisMessage)
    ensures !React(table, true, req).Crash?
  {
  }

  lemma {:induction false} DeliverKeeps(table: HandlerTable, s: OA.State, n: nat,
                                        answers: map<int, RedisValue>, values: seq<RedisValue>)
    requires OA.Inv(s, n, answers)
    ensures Deliver(table, s, values).Some?
    ensures OA.Inv(Deliver(table, s, values).value, n + |values|, answers + SyncReplies(table, n, values))
  {
    hide OA.Inv, DeliverOne, React;
    if values == [] {
      assert answers + SyncReplies(table, n, values) == answers;
    } else {
      var init, v := values[..|values| - 1], values[|values| - 1];
      DeliverKeeps(table, s, n, answers, init);
      var s1 := Deliver(table, s, init).value;
      DeliverOneKeeps(table, s1, n + |init|, answers + SyncReplies(table, n, init), v);
      SyncRepliesSnoc(table, n, values, answers);
    }
  }

  lemma SyncRepliesSnoc(table: HandlerTable, n: int, values: seq<RedisValue>, answers: map<int, RedisValue>)
    requires values != []
    ensures var init, v := values[..|values| - 1], values[|values| - 1];
            var k := n + |init|;
            var r := React(table, true, Msg(k, v));
            var before := answers + SyncReplies(table, n, init);
            answers + SyncReplies(table, n, values) == if r.Reply? then before[k := r.val] else before
  {
    hide React;
  }

  lemma SyncRepliesAppend(table: HandlerTable, a: seq<RedisValue>, b: seq<RedisValue>)
    ensures SyncReplies(table, 0, a + b) == SyncReplies(table, 0, a) + SyncReplies(table, |a|, b)
  {
    hide React;
  }

  predicate FiredAreEncodable(s: OA.State) {
    forall i :: 0 <= i < |s.fired| ==> Encodable(s.fired[i].val)
  }

  ghost predicate Agrees(table: HandlerTable, c: Connection, events: seq<PipelineEvent>) {
    && c.left == DecodeAll(Input(events)).left
    && OA.Inv(c.state, |Requests(events)|, Answered(table, events))
    && FiredAreEncodable(c.state)
    && forall k | k in Completions(events) :: 0 <= k < |Requests(events)|
  }

  // ----- what has been fired, and what of it has been encoded

  lemma {:induction false} KeyedIsIn(msgs: seq<OA.RedisMessage>, i: nat)
    requires i < |OA.Keyed(msgs)|
    ensures OA.Keyed(msgs)[i] in msgs
  {
    var init := msgs[..|msgs| - 1];
    if i < |OA.Keyed(init)| {
      KeyedIsIn(init, i);
    }
  }

  lemma {:induction false} KeyedHolds(msgs: seq<OA.RedisMessage>, i: nat)
    requires i < |msgs| && msgs[i].key != -1
    ensures msgs[i] in OA.Keyed(msgs)
  {
    if i < |msgs| - 1 {
      KeyedHolds(msgs[..|msgs| - 1], i);
    }
  }

  /** The fired replies can be encoded exactly when those whose turn has come can. */
  lemma FiredRepliesAreSent(s: OA.State, n: nat, answers: map<int, RedisValue>)
    requires OA.Inv(s, n, answers)
    ensures SentAreEncodable(answers, n) <==>
            forall i :: 0 <= i < |s.fired| && s.fired[i].key != -1 ==> Encodable(s.fired[i].val)
  {
    hide OA.Keyed, Encodable;
    var sent := s.adapter.startKey;
    var keyed := OA.Keyed(s.fired);
    if SentAreEncodable(answers, n) {
      forall i | 0 <= i < |s.fired| && s.fired[i].key != -1 ensures Encodable(s.fired[i].val) {
        KeyedHolds(s.fired, i);
        var k :| 0 <= k < sent && keyed[k] == s.fired[i];
        assert OA.AnsweredUpTo(answers, k + 1);
      }
    }
    if forall i :: 0 <= i < |s.fired| && s.fired[i].key != -1 ==> Encodable(s.fired[i].val) {
      forall k | 0 <= k < n && OA.AnsweredUpTo(answers, k + 1) ensures Encodable(answers[k]) {
        assert k < sent;
        KeyedIsIn(s.fired, k);
        assert keyed[k] == Msg(k, answers[k]);
      }
    }
  }

  lemma OnlyKeyedFired(s: OA.State, n: nat, answers: map<int, RedisValue>, msg: OA.RedisMessage)
    requires OA.Inv(s, n, answers) && msg.key != -1 && OA.Next(s, OA.Answer(msg)).Some?
    ensures var t := OA.Next(s, OA.Answer(msg)).value;
            s.fired <= t.fired && forall i :: |s.fired| <= i < |t.fired| ==> t.fired[i].key != -1
  {
    hide OA.Flushed, OA.Keyed;
    var a := s.adapter;
    var pending := a.pending[msg.key - a.startKey := a.pending[msg.key - a.startKey].(val := msg.val)];
    forall i | 0 <= i < |pending| ensures pending[i].key != -1 {
      assert a.pending[i] == OA.Slot(answers, a.startKey + i);
    }
  }

  lemma {:induction false} OnlyKeyedDelivered(table: HandlerTable, s: OA.State, n: nat,
                                              answers: map<int, RedisValue>, values: seq<RedisValue>)
    requires OA.Inv(s, n, answers) && Deliver(table, s, values).Some?
    ensures var t := Deliver(table, s, values).value;
            s.fired <= t.fired && forall i :: |s.fired| <= i < |t.fired| ==> t.fired[i].key != -1
  {
    hide OA.Inv, React;
    if values != [] {
      var init, v := values[..|values| - 1], values[|values| - 1];
      OnlyKeyedDelivered(table, s, n, answers, init);
      DeliverKeeps(table, s, n, answers, init);
      OnlyKeyedDeliveredOne(table, Deliver(table, s, init).value, n + |init|, answers + SyncReplies(table, n, init), v);
    }
  }

  lemma OnlyKeyedDeliveredOne(table: HandlerTable, s: OA.State, n: nat, answers: map<int, RedisValue>, v: RedisValue)
    requires OA.Inv(s, n, answers) && DeliverOne(table, s, v).Some?
    ensures var t := DeliverOne(table, s, v).value;
            s.fired <= t.fired && forall i :: |s.fired| <= i < |t.fired| ==> t.fired[i].key != -1
  {
    hide OA.Inv, React;
    NextKey(s, n, answers);
    OA.ArriveKeeps(s, n, answers);
    var r := React(table, true, Msg(n, v));
    if r.Reply? {
      OnlyKeyedFired(OA.Next(s, OA.Arrive).value, n + 1, answers, Msg(n, r.val));
    }
  }

  /** When a step fires only replies, the encoder survives it exactly when the replies whose turn has
      come can be encoded. */
  lemma EncoderSurvives(s: OA.State, t: OA.State, n: nat, answers: map<int, RedisValue>)
    requires OA.Inv(t, n, answers) && FiredAreEncodable(s) && s.fired <= t.fired
    requires forall i :: |s.fired| <= i < |t.fired| ==> t.fired[i].key != -1
    ensures CanEncode(s, t) <==> SentAreEncodable(answers, n)
    ensures CanEncode(s, t) ==> FiredAreEncodable(t)
  {
    hide OA.Inv, Encodable, SentAreEncodable;
    FiredRepliesAreSent(t, n, answers);
    assert forall i :: 0 <= i < |s.fired| ==> t.fired[i] == s.fired[i];
  }

  // ----- each event

  lemma ChunkKeeps(table: HandlerTable, c: Connection, before: seq<PipelineEvent>, b: bytes)
    requires Agrees(table, c, before)
    ensures var events := before + [Chunk(b)];
            var next := Next(table, c, Chunk(b));
            && (next.Some? <==> SentAreEncodable(Answered(table, events), |Requests(events)|))
            && (next.Some? ==> Agrees(table, next.value, events))
  {
    hide OA.Inv, SyncReplies, DecodeAll, Deliver, SentAreEncodable, CanEncode, FiredAreEncodable;
    var events := before + [Chunk(b)];
    assert events[..|events| - 1] == before;
    assert Input(events) == Input(before) + b;
    DecodeAllSplits(Input(before), b);
    var newly := DecodeAll(c.left + b);
    assert Requests(events) == Requests(before) + newly.values;
    DeliverKeeps(table, c.state, |Requests(before)|, Answered(table, before), newly.values);
    OnlyKeyedDelivered(table, c.state, |Requests(before)|, Answered(table, before), newly.values);
    AnsweredAfterChunk(table, Requests(before), newly.values, Completions(before));
    EncoderSurvives(c.state, Deliver(table, c.state, newly.values).value, |Requests(events)|, Answered(table, events));
  }

  lemma AnsweredAfterChunk(table: HandlerTable, reqs: seq<RedisValue>, newly: seq<RedisValue>,
                           completions: map<int, RedisValue>)
    requires forall k | k in completions :: 0 <= k < |reqs|
    ensures SyncReplies(table, 0, reqs + newly) + completions
         == SyncReplies(table, 0, reqs) + completions + SyncReplies(table, |reqs|, newly)
  {
    SyncRepliesAppend(table, reqs, newly);
    hide React;
  }

  lemma AfterComplete(table: HandlerTable, before: seq<PipelineEvent>, key: int, val: RedisValue)
    ensures var events := before + [Complete(key, val)];
            && Input(events) == Input(before) && Requests(events) == Requests(before)
            && Completions(events) == (if key == -1 then Completions(before) else Completions(before)[key := val])
            && Answered(table, events) ==
               (if key == -1 then Answered(table, before) else Answered(table, before)[key := val])
  {
    hide SyncReplies, DecodeAll;
    var events := before + [Complete(key, val)];
    assert events[..|events| - 1] == before;
    assert Input(events) == Input(before) + [] == Input(before);
  }

  lemma BypassStep(table: HandlerTable, c: Connection, before: seq<PipelineEvent>, val: RedisValue)
    requires Agrees(table, c, before)
    ensures var events := before + [Complete(-1, val)];
            var next := Next(table, c, Complete(-1, val));
            && (next.Some? <==> Encodable(val))
            && (next.Some? ==> Agrees(table, next.value, events))
            && SentAreEncodable(Answered(table, events), |Requests(events)|)
  {
    hide OA.Inv, Answered, Requests, Input, Completions, Encodable;
    AfterComplete(table, before, -1, val);
    OA.BypassKeeps(c.state, |Requests(before)|, Answered(table, before), Msg(-1, val));
    FiredRepliesAreSent(c.state, |Requests(before)|, Answered(table, before));
    var t := OA.Next(c.state, OA.Answer(Msg(-1, val))).value;
    assert t.fired == c.state.fired + [Msg(-1, val)];
    assert t.fired[|c.state.fired|].val == val;
  }

  lemma AnswerStep(table: HandlerTable, c: Connection, before: seq<PipelineEvent>, key: int, val: RedisValue)
    requires Agrees(table, c, before) && key != -1 && LegalCompletion(table, before, key, val)
    ensures var events := before + [Complete(key, val)];
            var next := Next(table, c, Complete(key, val));
            && (next.Some? <==> SentAreEncodable(Answered(table, events), |Requests(events)|))
            && (next.Some? ==> Agrees(table, next.value, events))
  {
    hide OA.Inv, OA.Next, Answered, Requests, Input, Completions;
    hide SentAreEncodable, CanEncode, FiredAreEncodable, Encodable;
    AfterComplete(table, before, key, val);
    var n, answers, msg := |Requests(before)|, Answered(table, before), Msg(key, val);
    OA.AnswerKeeps(c.state, n, answers, msg);
    OnlyKeyedFired(c.state, n, answers, msg);
    EncoderSurvives(c.state, OA.Next(c.state, OA.Answer(msg)).value, n, answers[key := val]);
  }

  lemma CompleteRefused(table: HandlerTable, c: Connection, before: seq<PipelineEvent>, key: int, val: RedisValue)
    requires Agrees(table, c, before) && key != -1 && !LegalCompletion(table, before, key, val)
    ensures Next(table, c, Complete(key, val)).None?
  {
    hide OA.Inv, SyncReplies, DecodeAll, OA.Next, Encodable;
    OA.AnswerRefused(c.state, |Requests(before)|, Answered(table, before), Msg(key, val));
  }

  lemma CompleteKeeps(table: HandlerTable, c: Connection, before: seq<PipelineEvent>, key: int, val: RedisValue)
    requires Agrees(table, c, before)
    ensures var events := before + [Complete(key, val)];
            var next := Next(table, c, Complete(key, val));
            && (next.Some? <==> LegalCompletion(table, before, key, val) &&
                                SentAreEncodable(Answered(table, events), |Requests(events)|))
            && (next.Some? ==> Agrees(table, next.value, events))
  {
    hide Agrees, Next, Answered, Requests, SentAreEncodable;
    if key == -1 {
      BypassStep(table, c, before, val);
    } else if LegalCompletion(table, before, key, val) {
      AnswerStep(table, c, before, key, val);
    } else {
      CompleteRefused(table, c, before, key, val);
    }
  }

  /** For every table, chunking and interleaving: the process survives exactly when every completion
      is legal and every reply whose turn has come can be encoded, and then the connection is where
      its events say. */
  lemma {:induction false} RunAgrees(table: HandlerTable, events: seq<PipelineEvent>)
    ensures Run(table, events).Some? <==> Legal(table, events)
    ensures Legal(table, events) ==> Agrees(table, Run(table, events).value, events)
  {
    hide Agrees, Next, Answered, Requests, SentAreEncodable, LegalCompletion;
    if events == [] {
      NothingYet(table);
    } else {
      var before, e := events[..|events| - 1], events[|events| - 1];
      assert events == before + [e];
      RunAgrees(table, before);
      if Legal(table, before) {
        var c := Run(table, before).value;
        match e
        case Chunk(b) => ChunkKeeps(table, c, before, b);
        case Complete(key, val) => CompleteKeeps(table, c, before, key, val);
      }
    }
  }

  lemma NothingYet(table: HandlerTable)
    ensures Agrees(table, Connection([], OA.INITIAL), [])
  {
    assert DecodeAll([]) == Decoded([], []);
    assert Answered(table, []) == map[];
    OA.InitialInv();
  }

  // ----- bytes out

  function Values(msgs: seq<OA.RedisMessage>): (vs: seq<RedisValue>)
    ensures |vs| == |msgs| && forall i :: 0 <= i < |vs| ==> vs[i] == msgs[i].val
  {
    seq(|msgs|, i requires 0 <= i < |msgs| => msgs[i].val)
  }

  /** The replies to requests 0, 1, ..., n - 1. */
  function InOrder(answers: map<int, RedisValue>, n: nat): (vs: seq<RedisValue>)
    requires OA.AnsweredUpTo(answers, n)
    ensures |vs| == n && forall i :: 0 <= i < n ==> vs[i] == answers[i]
  {
    seq(n, i requires 0 <= i < n => answers[i])
  }

  /** The values sent in answer to requests, bypassing messages left aside. */
  function Sent(c: Connection): seq<RedisValue> {
    Values(OA.Keyed(c.state.fired))
  }

  /** End to end: at every point of every legal run, the keyed bytes written are the encodings of
      the replies to a prefix of the requests, in arrival order; the prefix ends at the first
      request that has no reply yet. */
  lemma EndToEnd(table: HandlerTable, events: seq<PipelineEvent>)
    requires Legal(table, events)
    ensures Run(table, events).Some?
    ensures var c := Run(table, events).value;
            var answers, n := Answered(table, events), c.state.adapter.startKey;
            && 0 <= n <= |Requests(events)|
            && OA.AnsweredUpTo(answers, n)
            && (n < |Requests(events)| ==> n !in answers)
            && AllEncodable(Sent(c)) && AllEncodable(InOrder(answers, n))
            && EncodeAll(Sent(c)) == EncodeAll(InOrder(answers, n))
            && c.left == DecodeAll(Input(events)).left
  {
    hide DecodeAll, EncodeAll, Encodable, OA.Keyed;
    RunAgrees(table, events);
    var c := Run(table, events).value;
    var answers, n := Answered(table, events), c.state.adapter.startKey;
    assert Sent(c) == InOrder(answers, n);
    forall v | v in Sent(c) ensures Encodable(v) {
      var i :| 0 <= i < |Sent(c)| && Sent(c)[i] == v;
      KeyedIsIn(c.state.fired, i);
    }
  }

  // ----- which reply a request gets

  lemma {:induction false} CompletionsWerePutOff(table: HandlerTable, events: seq<PipelineEvent>, k: int)
    requires Legal(table, events) && k in Completions(events)
    ensures 0 <= k < |Requests(events)| && k !in SyncReplies(table, 0, Requests(events))
  {
    hide SyncReplies, DecodeAll, SentAreEncodable, Encodable;
    var before, e := events[..|events| - 1], events[|events| - 1];
    assert events == before + [e];
    match e
    case Chunk(b) =>
      CompletionsWerePutOff(table, before, k);
      DecodeAllSplits(Input(before), b);
      var newly := DecodeAll(DecodeAll(Input(before)).left + b).values;
      NotAmongNewly(table, Requests(before), newly, k);
    case Complete(key, val) =>
      AfterComplete(table, before, key, val);
      if key == -1 || key != k {
        CompletionsWerePutOff(table, before, k);
      }
  }

  lemma NotAmongNewly(table: HandlerTable, reqs: seq<RedisValue>, newly: seq<RedisValue>, k: int)
    requires 0 <= k < |reqs| && k !in SyncReplies(table, 0, reqs)
    ensures k !in SyncReplies(table, 0, reqs + newly)
  {
    SyncRepliesAppend(table, reqs, newly);
    hide React;
  }

  lemma SyncReplyOf(table: HandlerTable, values: seq<RedisValue>, k: int)
    requires 0 <= k < |values|
    ensures var r := React(table, true, Msg(k, values[k]));
            && (k in SyncReplies(table, 0, values) <==> r.Reply?)
            && (r.Reply? ==> SyncReplies(table, 0, values)[k] == r.val)
  {
    hide React;
  }

  /** In every legal run each request gets the reply it calls for: a protocol error is echoed; an unknown
      command and a wrong argument count get their error texts; and a command that runs gets the very
      result its handler returned, or, when the handler put it off, the completion that came for it. */
  lemma EachGetsItsReply(table: HandlerTable, events: seq<PipelineEvent>, k: int)
    requires Legal(table, events) && 0 <= k < |Requests(events)|
    ensures var v, answers := Requests(events)[k], Answered(table, events);
            && (v.Error? || (v.BulkStringArray? && v.strs != []))
            && (v.Error? ==> k in answers && answers[k] == v)
            && (v.BulkStringArray? ==>
                  var cmd, name, args := v.strs, Lower(v.strs[0]), |v.strs| - 1;
                  if name !in table then
                    k in answers && answers[k] == Error(Ascii("Unknown command: '") + name + Ascii("'"))
                  else if (table[name].minArgs != -1 && args < table[name].minArgs) ||
                          (table[name].maxArgs != -1 && args > table[name].maxArgs) then
                    k in answers &&
                    answers[k] == Error(Ascii("Wrong number of arguments for '") + name + Ascii("' command"))
                  else if table[name].func(k, cmd).AsyncResult? then
                    && (k in answers <==> k in Completions(events))
                    && (k in answers ==> answers[k] == Completions(events)[k])
                  else k in answers && answers[k] == table[name].func(k, cmd))
  {
    var values := Requests(events);
    DecodedValues(Input(events), k);
    SyncReplyOf(table, values, k);
    if k in Completions(events) {
      CompletionsWerePutOff(table, events, k);
    }
    hide Legal, DecodeAll, SyncReplies, Lower, Ascii;
    if values[k].BulkStringArray? && Lower(values[k].strs[0]) in table {
      var h := table[Lower(values[k].strs[0])];
      ArgCounts(values[k].strs, h.minArgs, h.maxArgs);
    }
  }

  // ----- messages that bypass the order

  function Unkeyed(msgs: seq<OA.RedisMessage>): seq<RedisValue> {
    if msgs == [] then []
    else Unkeyed(msgs[..|msgs| - 1]) + if msgs[|msgs| - 1].key == -1 then [msgs[|msgs| - 1].val] else []
  }

  function Bypasses(events: seq<PipelineEvent>): seq<RedisValue> {
    if events == [] then []
    else
      var e := events[|events| - 1];
      Bypasses(events[..|events| - 1]) + if e.Complete? && e.key == -1 then [e.val] else []
  }

  lemma {:induction false} UnkeyedSame(a: seq<OA.RedisMessage>, b: seq<OA.RedisMessage>)
    requires a <= b && forall i :: |a| <= i < |b| ==> b[i].key != -1
    ensures Unkeyed(b) == Unkeyed(a)
  {
    if |a| < |b| {
      assert a <= b[..|b| - 1];
      UnkeyedSame(a, b[..|b| - 1]);
    } else {
      assert a == b;
    }
  }

  /** A message that bypasses the order goes out at once, behind what is out already, and changes nothing
      else. */
  lemma BypassIsImmediate(table: HandlerTable, c: Connection, val: RedisValue)
    requires Encodable(val)
    ensures Next(table, c, Complete(-1, val)) ==
            Some(c.(state := c.state.(fired := c.state.fired + [Msg(-1, val)])))
  {
    hide Encodable;
    var t := OA.Next(c.state, OA.Answer(Msg(-1, val))).value;
    assert t.fired[|c.state.fired|] == Msg(-1, val);
  }

  /** Each such message goes out exactly once, in order among themselves. */
  lemma {:induction false} BypassesGoOut(table: HandlerTable, events: seq<PipelineEvent>)
    requires Run(table, events).Some?
    ensures Unkeyed(Run(table, events).value.state.fired) == Bypasses(events)
  {
    hide Agrees, Legal, Next;
    if events != [] {
      var before, e := events[..|events| - 1], events[|events| - 1];
      BypassesGoOut(table, before);
      RunAgrees(table, before);
      EventBypasses(table, Run(table, before).value, before, e);
    }
  }

  lemma EventBypasses(table: HandlerTable, c: Connection, before: seq<PipelineEvent>, e: PipelineEvent)
    requires Agrees(table, c, before) && Next(table, c, e).Some?
    ensures Unkeyed(Next(table, c, e).value.state.fired) ==
            Unkeyed(c.state.fired) + if e.Complete? && e.key == -1 then [e.val] else []
  {
    var t := Next(table, c, e).value.state;
    if e.Complete? && e.key == -1 {
      assert t.fired == c.state.fired + [Msg(-1, e.val)];
      assert t.fired[..|t.fired| - 1] == c.state.fired;
    } else {
      EventFires(table, c, before, e);
      UnkeyedSame(c.state.fired, t.fired);
    }
  }

  lemma EventFires(table: HandlerTable, c: Connection, before: seq<PipelineEvent>, e: PipelineEvent)
    requires Agrees(table, c, before) && Next(table, c, e).Some?
    requires e.Complete? ==> e.key != -1
    ensures var t := Next(table, c, e).value.state;
            c.state.fired <= t.fired && forall i :: |c.state.fired| <= i < |t.fired| ==> t.fired[i].key != -1
  {
    hide OA.Inv, OA.Next, DecodeAll, Deliver, Answered, Requests, CanEncode, FiredAreEncodable;
    var n, answers := |Requests(before)|, Answered(table, before);
    match e
    case Chunk(b) => OnlyKeyedDelivered(table, c.state, n, answers, DecodeAll(c.left + b).values);
    case Complete(key, val) => OnlyKeyedFired(c.state, n, answers, Msg(key, val));
  }

  /** Neither the chunking of the input nor the order of completions shows in the output. */
  lemma InterleavingIsInvisible(table: HandlerTable, e1: seq<PipelineEvent>, e2: seq<PipelineEvent>)
    requires Legal(table, e1) && Legal(table, e2)
    requires Input(e1) == Input(e2) && Completions(e1) == Completions(e2)
    ensures Run(table, e1).Some? && Run(table, e2).Some?
    ensures Sent(Run(table, e1).value) == Sent(Run(table, e2).value)
    ensures Run(table, e1).value.left == Run(table, e2).value.left
  {
    hide DecodeAll, SyncReplies, OA.Inv, OA.Keyed;
    RunAgrees(table, e1);
    RunAgrees(table, e2);
    OA.InvDetermines(Run(table, e1).value.state, Run(table, e2).value.state, |Requests(e1)|, Answered(table, e1));
  }

  /** Once every request has a reply, a client that can split the bytes at all splits them into
      exactly the replies, one per request, in order. */
  lemma ClientSeesEveryReply(table: HandlerTable, events: seq<PipelineEvent>, seen: seq<RedisValue>)
    requires Legal(table, events)
    requires OA.AnsweredUpTo(Answered(table, events), |Requests(events)|)
    requires Run(table, events).Some? && AllEncodable(Sent(Run(table, events).value))
    requires AllEncodable(seen) && EncodeAll(seen) == EncodeAll(Sent(Run(table, events).value))
    ensures |seen| == |Requests(events)|
    ensures WireAll(seen) == WireAll(InOrder(Answered(table, events), |Requests(events)|))
  {
    hide Run, Legal, Answered, Requests, Encode, EncodeAll, Sent, Encodable, WireAll, DecodeAll;
    var n := |Requests(events)|;
    EndToEnd(table, events);
    assert Run(table, events).value.state.adapter.startKey == n;
    RepliesSplitUniquely(seen, InOrder(Answered(table, events), n));
  }

  lemma OneChunk(table: HandlerTable, chunk: bytes)
    ensures Requests([Chunk(chunk)]) == DecodeAll(chunk).values && Completions([Chunk(chunk)]) == map[]
    ensures Answered(table, [Chunk(chunk)]) == SyncReplies(table, 0, DecodeAll(chunk).values)
  {
    hide DecodeAll, SyncReplies;
    var one := [Chunk(chunk)];
    assert one[..0] == [];
    assert Input(one) == [] + chunk == chunk;
    assert Completions(one) == Completions([]);
  }

  lemma LegalAfterComplete(table: HandlerTable, before: seq<PipelineEvent>, key: int, val: RedisValue)
    requires key != -1
    ensures Legal(table, before + [Complete(key, val)]) <==>
            && Legal(table, before) && LegalCompletion(table, before, key, val)
            && SentAreEncodable(Answered(table, before)[key := val], |Requests(before)|)
  {
    hide Answered, Requests, SentAreEncodable, LegalCompletion;
    var events := before + [Complete(key, val)];
    assert events[..|events| - 1] == before;
    AfterComplete(table, before, key, val);
  }

  lemma NoneSentYet(answers: map<int, RedisValue>, n: nat)
    requires 0 !in answers
    ensures SentAreEncodable(answers, n)
  {
  }

  lemma LegalAfterChunk(table: HandlerTable, chunk: bytes)
    requires SyncReplies(table, 0, DecodeAll(chunk).values) == map[]
    ensures Legal(table, [Chunk(chunk)])
  {
    hide Answered, Requests, DecodeAll, SyncReplies;
    OneChunk(table, chunk);
    var one := [Chunk(chunk)];
    assert one[..0] == [];
    NoneSentYet(Answered(table, one), |Requests(one)|);
  }

  /** A reply that cannot be encoded is harmless while it waits and fatal when its turn comes: with two
      requests open, answering the second with an array that holds an asynchronous result leaves the
      process alive until the first is answered. */
  lemma UnencodableReplyWaits(table: HandlerTable, chunk: bytes, first: RedisValue)
    requires |DecodeAll(chunk).values| == 2 && SyncReplies(table, 0, DecodeAll(chunk).values) == map[]
    requires Encodable(first)
    ensures var waiting := [Chunk(chunk), Complete(1, Array([AsyncResult]))];
            Run(table, waiting).Some? && Run(table, waiting + [Complete(0, first)]).None?
  {
    hide Legal, Run, Answered, Requests, DecodeAll, SyncReplies;
    var bad := Array([AsyncResult]);
    assert AsyncResult in bad.elems && !Encodable(bad);
    var one, two := [Chunk(chunk)], [Chunk(chunk), Complete(1, bad)];
    assert two == one + [Complete(1, bad)];
    OneChunk(table, chunk);
    LegalAfterChunk(table, chunk);
    LegalAfterComplete(table, one, 1, bad);
    AfterComplete(table, one, 1, bad);
    NoneSentYet(map[1 := bad], 2);
    var full := map[1 := bad][0 := first];
    assert OA.AnsweredUpTo(full, 1 + 1) && full[1] == bad;
    LegalAfterComplete(table, two, 0, first);
    RunAgrees(table, two);
    RunAgrees(table, two + [Complete(0, first)]);
  }

  /** Such a connection: two one-byte requests for a command that puts its reply off. */
  lemma TwoOpenRequests() returns (table: HandlerTable, chunk: bytes)
    ensures |DecodeAll(chunk).values| == 2 && SyncReplies(table, 0, DecodeAll(chunk).values) == map[]
  {
    table := Postponing();
    chunk := TwoPostponed();
    hide DecodeAll, Postponing, React;
    Postpones(0);
    Postpones(1);
  }

  const POSTPONED: RedisValue := BulkStringArray([[97]])

  function Postponing(): HandlerTable {
    map[[97] := CommandHandler((key: int, cmd: Command) => AsyncResult, -1, -1)]
  }

  lemma Postpones(key: int)
    ensures React(Postponing(), true, Msg(key, POSTPONED)).Deferred?
  {
    var name: bytes := [97];
    assert Lower(name) == name;
  }

  lemma TwoPostponed() returns (chunk: bytes)
    ensures DecodeAll(chunk).values == [POSTPONED, POSTPONED]
  {
    var reqs: seq<seq<bytes>> := [[[97]], [[97]]];
    chunk := ByteStreams.Requests([0, 0], reqs);
    RequestsDecode([0, 0], reqs);
    hide DecodeAll;
    assert reqs[1..] == [[[97]]] && reqs[1..][1..] == [];
    assert AsValues(reqs[1..]) == [POSTPONED] + AsValues([]);
  }
}
