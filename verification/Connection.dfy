/**
 One connection as the source runs it (pipeline/RedisPipelineFactory): the buffer queue, the decoder,
 the reorder buffer, the handler and the encoder, each updated in place. Every event is proved to do
 what Pipelines.Next says, and to write exactly the encodings of the messages it fires.
 */
module Connections {
  import opened Bytes
  import opened RedisValues
  import opened ByteStreams
  import opened IOBufs
  import opened DecodeLoops
  import OA = OrderedAdapters
  import opened RedisHandlers
  import P = Pipelines

  // ----- what was written for the messages fired since

  function Newly(before: OA.State, after: OA.State): seq<RedisValue>
    requires |before.fired| <= |after.fired|
  {
    P.Values(after.fired[|before.fired|..])
  }

  /** Everything fired since has been encoded, in order, and nothing else was written. */
  predicate Wrote(before: OA.State, after: OA.State, out: bytes, out': bytes) {
    && before.fired <= after.fired && P.CanEncode(before, after)
    && AllEncodable(Newly(before, after)) && out' == out + EncodeAll(Newly(before, after))
  }

  lemma {:induction false} EncodeAllAppend(a: seq<RedisValue>, b: seq<RedisValue>)
    requires AllEncodable(a) && AllEncodable(b)
    ensures AllEncodable(a + b) && EncodeAll(a + b) == EncodeAll(a) + EncodeAll(b)
  {
    hide Encode, Encodable;
    if a == [] {
      assert a + b == b;
    } else {
      EncodeAllAppend(a[1..], b);
      assert a + b == [a[0]] + (a[1..] + b);
    }
  }

  lemma EncodeNothing()
    ensures EncodeAll([]) == []
  {
  }

  lemma EncodeOneMore(vs: seq<RedisValue>, v: RedisValue)
    requires AllEncodable(vs) && Encodable(v)
    ensures AllEncodable(vs + [v]) && EncodeAll(vs + [v]) == EncodeAll(vs) + Encode(v)
  {
    EncodeAllAppend(vs, [v]);
    hide Encode, Encodable;
    assert EncodeAll([v]) == Encode(v) + EncodeAll([v][1..]) == Encode(v);
  }

  lemma CanEncodeIsAllEncodable(before: OA.State, after: OA.State)
    requires before.fired <= after.fired
    ensures P.CanEncode(before, after) <==> AllEncodable(Newly(before, after))
  {
    hide Encodable;
    var newly := Newly(before, after);
    if AllEncodable(newly) {
      forall i | |before.fired| <= i < |after.fired| ensures Encodable(after.fired[i].val) {
        assert newly[i - |before.fired|] == after.fired[i].val;
      }
    }
  }

  lemma WroteNothing(s: OA.State, t: OA.State, out: bytes)
    requires s.fired == t.fired
    ensures Wrote(s, t, out, out)
  {
    assert t.fired[|s.fired|..] == [] && out + [] == out;
  }

  lemma WroteMore(s: OA.State, t: OA.State, u: OA.State, out: bytes, out': bytes, out'': bytes)
    requires Wrote(s, t, out, out') && Wrote(t, u, out', out'')
    ensures Wrote(s, u, out, out'')
  {
    hide Encodable, EncodeAll;
    assert u.fired[|s.fired|..] == t.fired[|s.fired|..] + u.fired[|t.fired|..];
    assert Newly(s, u) == Newly(s, t) + Newly(t, u);
    EncodeAllAppend(Newly(s, t), Newly(t, u));
    CanEncodeIsAllEncodable(s, u);
    assert out + EncodeAll(Newly(s, t)) + EncodeAll(Newly(t, u)) ==
           out + (EncodeAll(Newly(s, t)) + EncodeAll(Newly(t, u)));
  }

  // ----- what has been fired stays fired

  lemma DeliverOneGrows(table: HandlerTable, s: OA.State, v: RedisValue)
    ensures P.DeliverOne(table, s, v).Some? ==> s.fired <= P.DeliverOne(table, s, v).value.fired
  {
    hide React, OA.Flushed, OA.ReadStep;
  }

  lemma {:induction false} DeliverGrows(table: HandlerTable, s: OA.State, values: seq<RedisValue>, n: nat)
    requires n <= |values| && P.Deliver(table, s, values).Some?
    ensures P.Deliver(table, s, values[..n]).Some?
    ensures P.Deliver(table, s, values[..n]).value.fired <= P.Deliver(table, s, values).value.fired
  {
    hide P.DeliverOne;
    if n == |values| {
      assert values[..n] == values;
    } else {
      var init := values[..|values| - 1];
      assert init[..n] == values[..n];
      DeliverGrows(table, s, init, n);
      DeliverOneGrows(table, P.Deliver(table, s, init).value, values[|values| - 1]);
    }
  }

  /** Once the process has ended on some message, the rest of the chunk does not bring it back. */
  lemma EndedStaysEnded(table: HandlerTable, s: OA.State, values: seq<RedisValue>, n: nat)
    requires n <= |values|
    requires var t := P.Deliver(table, s, values[..n]); t.None? || !P.CanEncode(s, t.value)
    ensures var t := P.Deliver(table, s, values); t.None? || !P.CanEncode(s, t.value)
  {
    hide P.Deliver, Encodable;
    if P.Deliver(table, s, values).Some? {
      DeliverGrows(table, s, values, n);
    }
  }

  class RedisConnection {
    const table: HandlerTable
    const buf: IOBufQueue
    const adapter: OA.OrderedRedisMessageAdapter
    const handler: RedisHandler
    const below: OA.Context
    var output: bytes

    constructor (table: HandlerTable)
      ensures this.table == handler.table == table && handler.allowAsync
      ensures fresh(buf) && fresh(adapter) && fresh(below)
      ensures View() == P.Connection([], OA.INITIAL) && output == []
    {
      this.table := table;
      buf := new IOBufQueue();
      adapter := new OA.OrderedRedisMessageAdapter();
      handler := new RedisHandler(table, true);
      below := new OA.Context();
      output := [];
    }

    ghost function Ordered(): OA.State
      reads adapter, below
    {
      OA.State(adapter.View(), below.written)
    }

    ghost function View(): P.Connection
      reads buf, adapter, below
    {
      P.Connection(buf.Contents(), Ordered())
    }

    /** The encoder: what was fired since n is written out, up to a message it cannot encode. */
    method EncodeFrom(n: nat) returns (alive: bool)
      requires n <= |below.written|
      modifies this`output
      ensures alive <==> AllEncodable(P.Values(below.written[n..]))
      ensures alive ==> output == old(output) + EncodeAll(P.Values(below.written[n..]))
    {
      hide Encode, Encodable, EncodeAll, P.Values;
      var vals := P.Values(below.written[n..]);
      assert vals[..0] == [] && EncodeAll([]) == [] by { EncodeNothing(); }
      for i := 0 to |vals|
        invariant AllEncodable(vals[..i]) && output == old(output) + EncodeAll(vals[..i])
      {
        if !Encodable(vals[i]) {
          assert vals[i] in vals;
          return false;
        }
        var encoded := EncodeToStream(vals[i]);
        assert vals[..i + 1] == vals[..i] + [vals[i]];
        EncodeOneMore(vals[..i], vals[i]);
        output := output + encoded;
      }
      assert vals[..|vals|] == vals;
      return true;
    }

    /** A reply on its way out: through the reorder buffer, then through the encoder. */
    method Write(msg: OA.RedisMessage) returns (alive: bool)
      modifies this`output, adapter, below
      ensures match OA.Next(old(Ordered()), OA.Answer(msg))
              case None => !alive
              case Some(t) =>
                && (alive <==> P.CanEncode(old(Ordered()), t))
                && (alive ==> Ordered() == t && Wrote(old(Ordered()), t, old(output), output))
    {
      hide OA.WriteStep, Encodable, EncodeAll;
      ghost var s, out := Ordered(), output;
      var n := |below.written|;
      alive := adapter.Write(below, msg);
      if alive {
        CanEncodeIsAllEncodable(s, Ordered());
        alive := EncodeFrom(n);
      }
    }

    /** A decoded message on its way in: through the reorder buffer to the handler. */
    method Read(v: RedisValue) returns (alive: bool)
      requires table == handler.table && handler.allowAsync
      modifies this`output, adapter, below
      ensures match P.DeliverOne(table, old(Ordered()), v)
              case None => !alive
              case Some(t) =>
                && (alive <==> P.CanEncode(old(Ordered()), t))
                && (alive ==> Ordered() == t && Wrote(old(Ordered()), t, old(output), output))
    {
      hide OA.WriteStep, Encodable, EncodeAll, React;
      ghost var s, out := Ordered(), output;
      var msg := adapter.Read(v);
      WroteNothing(s, Ordered(), out);
      var replies := new OA.Context();
      alive := handler.Read(replies, msg);
      if alive && replies.written != [] {
        alive := Write(replies.written[0]);
      }
    }

    /** Bytes arrive. */
    method Receive(chunk: bytes) returns (alive: bool)
      requires table == handler.table && handler.allowAsync
      modifies this`output, buf, adapter, below
      ensures match P.Next(table, old(View()), P.Chunk(chunk))
              case None => !alive
              case Some(c) => alive && View() == c && Wrote(old(Ordered()), c.state, old(output), output)
    {
      hide Wrote, P.DeliverOne, P.CanEncode, DecodeAll;
      ghost var s, out := Ordered(), output;
      var values := DecodeLoops.Receive(buf, chunk);
      WroteNothing(s, s, out);
      assert values[..0] == [];
      for i := 0 to |values|
        invariant P.Deliver(table, s, values[..i]) == Some(Ordered())
        invariant Wrote(s, Ordered(), out, output)
        invariant buf.Contents() == DecodeAll(old(buf.Contents()) + chunk).left
      {
        ghost var t, here := Ordered(), output;
        assert values[..i + 1][..i] == values[..i];
        alive := Read(values[i]);
        if !alive {
          DiedHere(table, s, values, i, t, out, here);
          return false;
        }
        WroteMore(s, t, Ordered(), out, here, output);
      }
      assert values[..|values|] == values;
      WroteCanEncode(s, Ordered(), out, output);
      return true;
    }

    /** A handler completes a request it had put off. */
    method Complete(key: int, val: RedisValue) returns (alive: bool)
      modifies this`output, adapter, below
      ensures match P.Next(table, old(View()), P.Complete(key, val))
              case None => !alive
              case Some(c) => alive && View() == c && Wrote(old(Ordered()), c.state, old(output), output)
    {
      hide Wrote, OA.Next, P.CanEncode;
      alive := Write(P.Msg(key, val));
    }

    /** A whole connection, event after event: it lives exactly on legal runs, and then the bytes on
        the socket are the encodings of all that was fired. When nothing bypasses the order, those
        are the replies to requests 0, 1, 2, ... up to the first one without a reply. */
    method Serve(events: seq<P.PipelineEvent>) returns (alive: bool)
      requires table == handler.table && handler.allowAsync
      requires View() == P.Connection([], OA.INITIAL) && output == []
      modifies this`output, buf, adapter, below
      ensures alive <==> P.Legal(table, events)
      ensures alive ==> P.Run(table, events) == Some(View()) && Wrote(OA.INITIAL, Ordered(), [], output)
      ensures alive && NoBypass(events) ==>
                var answers, n := P.Answered(table, events), adapter.startKey;
                && 0 <= n <= |P.Requests(events)| && OA.AnsweredUpTo(answers, n)
                && (n < |P.Requests(events)| ==> n !in answers)
                && AllEncodable(P.InOrder(answers, n)) && output == EncodeAll(P.InOrder(answers, n))
    {
      hide Wrote, P.Next, P.Legal, P.Requests, P.Answered, NoBypass;
      P.RunAgrees(table, events);
      WroteNothing(OA.INITIAL, OA.INITIAL, []);
      for i := 0 to |events|
        invariant P.Run(table, events[..i]) == Some(View())
        invariant Wrote(OA.INITIAL, Ordered(), [], output)
      {
        ghost var t, here := Ordered(), output;
        assert events[..i + 1][..i] == events[..i];
        match events[i] {
          case Chunk(b) => alive := Receive(b);
          case Complete(key, val) => alive := Complete(key, val);
        }
        if !alive {
          RunEnded(table, events, i + 1);
          return false;
        }
        WroteMore(OA.INITIAL, t, Ordered(), [], here, output);
      }
      assert events[..|events|] == events;
      if NoBypass(events) {
        OnlyRepliesOut(table, events, output);
      }
      return true;
    }
  }

  lemma {:induction false} RunEnded(table: HandlerTable, events: seq<P.PipelineEvent>, n: nat)
    requires n <= |events| && P.Run(table, events[..n]).None?
    ensures P.Run(table, events).None?
  {
    hide P.Next;
    if n == |events| {
      assert events[..n] == events;
    } else {
      var init := events[..|events| - 1];
      assert init[..n] == events[..n];
      RunEnded(table, init, n);
    }
  }

  // ----- connections on which nothing bypasses the order

  predicate NoBypass(events: seq<P.PipelineEvent>) {
    forall i :: 0 <= i < |events| && events[i].Complete? ==> events[i].key != -1
  }

  predicate AllKeyed(msgs: seq<OA.RedisMessage>) {
    forall i :: 0 <= i < |msgs| ==> msgs[i].key != -1
  }

  lemma {:induction false} KeyedIsAll(msgs: seq<OA.RedisMessage>)
    requires AllKeyed(msgs)
    ensures OA.Keyed(msgs) == msgs
  {
    if msgs != [] {
      KeyedIsAll(msgs[..|msgs| - 1]);
      assert msgs == msgs[..|msgs| - 1] + [msgs[|msgs| - 1]];
    }
  }

  lemma EventFiresKeyed(table: HandlerTable, c: P.Connection, before: seq<P.PipelineEvent>, e: P.PipelineEvent)
    requires P.Agrees(table, c, before) && P.Next(table, c, e).Some?
    requires e.Complete? ==> e.key != -1
    requires AllKeyed(c.state.fired)
    ensures AllKeyed(P.Next(table, c, e).value.state.fired)
  {
    hide P.Agrees, P.Next;
    P.EventFires(table, c, before, e);
  }

  lemma {:induction false} RunFiresKeyed(table: HandlerTable, events: seq<P.PipelineEvent>)
    requires P.Run(table, events).Some? && NoBypass(events)
    ensures AllKeyed(P.Run(table, events).value.state.fired)
  {
    hide P.Next, AllKeyed, P.Agrees, P.Legal;
    if events == [] {
      assert AllKeyed([]) by { NoneKeyed(); }
    } else {
      var init, e := events[..|events| - 1], events[|events| - 1];
      RunFiresKeyed(table, init);
      P.RunAgrees(table, init);
      EventFiresKeyed(table, P.Run(table, init).value, init, e);
    }
  }

  lemma NoneKeyed()
    ensures AllKeyed([])
  {
  }

  lemma OnlyRepliesOut(table: HandlerTable, events: seq<P.PipelineEvent>, out: bytes)
    requires P.Legal(table, events) && NoBypass(events) && P.Run(table, events).Some?
    requires Wrote(OA.INITIAL, P.Run(table, events).value.state, [], out)
    ensures var answers, n := P.Answered(table, events), P.Run(table, events).value.state.adapter.startKey;
            && 0 <= n <= |P.Requests(events)| && OA.AnsweredUpTo(answers, n)
            && (n < |P.Requests(events)| ==> n !in answers)
            && AllEncodable(P.InOrder(answers, n)) && out == EncodeAll(P.InOrder(answers, n))
  {
    hide P.Legal, P.Run, P.Answered, P.Requests, Encodable, EncodeAll, NoBypass, P.CanEncode, AllKeyed;
    P.EndToEnd(table, events);
    var s := P.Run(table, events).value.state;
    RunFiresKeyed(table, events);
    KeyedIsAll(s.fired);
    assert s.fired[|OA.INITIAL.fired|..] == s.fired;
    assert Newly(OA.INITIAL, s) == P.Sent(P.Run(table, events).value);
  }

  lemma WroteCanEncode(s: OA.State, t: OA.State, out: bytes, out': bytes)
    requires Wrote(s, t, out, out')
    ensures P.CanEncode(s, t)
  {
  }

  lemma DiedHere(table: HandlerTable, s: OA.State, values: seq<RedisValue>, i: nat, t: OA.State,
                 out: bytes, here: bytes)
    requires i < |values| && P.Deliver(table, s, values[..i]) == Some(t) && Wrote(s, t, out, here)
    requires var u := P.DeliverOne(table, t, values[i]); u.None? || !P.CanEncode(t, u.value)
    ensures var u := P.Deliver(table, s, values); u.None? || !P.CanEncode(s, u.value)
  {
    hide P.DeliverOne, Encodable, EncodeAll;
    assert values[..i + 1][..i] == values[..i];
    assert P.Deliver(table, s, values[..i + 1]) == P.DeliverOne(table, t, values[i]);
    DeliverOneGrows(table, t, values[i]);
    EndedStaysEnded(table, s, values, i + 1);
  }
}
