/**
 The decoder over a whole connection: bytes arrive in chunks, each chunk is appended to what was
 left over, and decode is called until it waits.
 */
module ByteStreams {
  import opened Bytes
  import opened RedisValues
  import opened RedisDecoders

  datatype Decoded = Decoded(values: seq<RedisValue>, left: bytes)

  /** Decode until a wait. Every emitted value takes at least two bytes, so this ends. */
  function DecodeAll(b: bytes): Decoded
    decreases |b|
  {
    match Decode(b)
    case Wait(rest, _) => Decoded([], rest)
    case Emit(v, rest) =>
      DecodeEmits(b);
      var d := DecodeAll(rest);
      Decoded([v] + d.values, d.left)
  }

  /** The chunks taken one after the other, starting with `left` in the buffer. */
  function DecodeChunks(left: bytes, chunks: seq<bytes>): Decoded
    decreases |chunks|
  {
    if chunks == [] then Decoded([], left)
    else
      var now := DecodeAll(left + chunks[0]);
      var later := DecodeChunks(now.left, chunks[1..]);
      Decoded(now.values + later.values, later.left)
  }

  /** Cutting a stream in two changes nothing. */
  lemma {:induction false} DecodeAllSplits(b: bytes, c: bytes)
    ensures var first := DecodeAll(b);
            var second := DecodeAll(first.left + c);
            DecodeAll(b + c) == Decoded(first.values + second.values, second.left)
    decreases |b|
  {
    hide Decode;
    match Decode(b)
    case Wait(rest, _) =>
      DecodeResumes(b, c);
    case Emit(v, rest) =>
      DecodeEmits(b);
      DecodeStable(b, c);
      DecodeAllSplits(rest, c);
      var first := DecodeAll(rest);
      var second := DecodeAll(first.left + c);
      assert [v] + first.values + second.values == [v] + (first.values + second.values);
  }

  lemma {:induction false} DecodeChunksFrom(left: bytes, chunks: seq<bytes>)
    requires DecodeAll(left) == Decoded([], left)
    ensures DecodeChunks(left, chunks) == DecodeAll(left + Flatten(chunks))
    decreases |chunks|
  {
    hide Decode, DecodeAll;
    if chunks == [] {
      assert left + [] == left;
    } else {
      var b := left + chunks[0];
      assert left + Flatten(chunks) == b + Flatten(chunks[1..]);
      DecodeAllSplits(b, Flatten(chunks[1..]));
      LeftoverWaits(b);
      DecodeChunksFrom(DecodeAll(b).left, chunks[1..]);
    }
  }

  /** What is left over holds no further value. */
  lemma {:induction false} LeftoverWaits(b: bytes)
    ensures var left := DecodeAll(b).left; DecodeAll(left) == Decoded([], left)
    decreases |b|
  {
    hide Decode;
    match Decode(b)
    case Wait(rest, _) =>
      DecodeResumes(b, []);
      assert rest + [] == rest && b + [] == b;
    case Emit(_, rest) =>
      DecodeEmits(b);
      LeftoverWaits(rest);
  }

  /** However the stream is cut into chunks, the same values come out, errors included, and the
      same bytes are left over, as when it is decoded whole. */
  lemma ChunkingIndependence(chunks: seq<bytes>)
    ensures DecodeChunks([], chunks) == DecodeAll(Flatten(chunks))
  {
    assert DecodeAll([]) == Decoded([], []);
    DecodeChunksFrom([], chunks);
    assert [] + Flatten(chunks) == Flatten(chunks);
  }

  /** Requests sent back to back are decoded one by one, whatever the noise between them. */
  function Requests(noise: seq<nat>, reqs: seq<seq<bytes>>): bytes
    requires |noise| == |reqs|
  {
    if reqs == [] then []
    else CrLfs(noise[0]) + Encode(BulkStringArray(reqs[0])) + Requests(noise[1..], reqs[1..])
  }

  function AsValues(reqs: seq<seq<bytes>>): seq<RedisValue> {
    if reqs == [] then [] else [BulkStringArray(reqs[0])] + AsValues(reqs[1..])
  }

  lemma {:induction false} RequestsDecode(noise: seq<nat>, reqs: seq<seq<bytes>>)
    requires |noise| == |reqs|
    requires forall i :: 0 <= i < |reqs| ==> reqs[i] != [] && SizesFit(reqs[i])
    ensures DecodeAll(Requests(noise, reqs)) == Decoded(AsValues(reqs), [])
  {
    hide Decode, Encode;
    if reqs == [] {
      EmptyWaits();
    } else {
      RoundTrip(noise[0], reqs[0], Requests(noise[1..], reqs[1..]));
      RequestsDecode(noise[1..], reqs[1..]);
    }
  }

  lemma EmptyWaits()
    ensures Decode([]) == Wait([], 2)
  {
  }

  /** All emitted values are encodable requests or errors. */
  lemma {:induction false} DecodedValues(b: bytes, i: nat)
    requires i < |DecodeAll(b).values|
    ensures var v := DecodeAll(b).values[i];
            v.Error? || (v.BulkStringArray? && v.strs != [])
    decreases |b|
  {
    hide Decode;
    DecodeEmits(b);
    if i > 0 {
      DecodedValues(Decode(b).rest, i - 1);
    }
  }
}
