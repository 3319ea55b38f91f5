/**
 RedisDecoder::decode as the source runs it: a cursor moves along the buffer chain, the queue is
 trimmed in place, and the strings of a request are read in a loop. Every method is proved
 against the functions of RedisDecoders on the flattened bytes, so no result depends on how the
 bytes are cut into buffers.
 */
module DecodeLoops {
  import opened Bytes
  import opened Decimal
  import opened RedisValues
  import opened RedisDecoders
  import opened ByteStreams
  import opened IOBufs

  /** `needed` after a value was emitted: written only when fewer than two bytes are left. */
  function NeededAfter(needed: nat, rest: bytes): nat {
    if |rest| < MIN_BYTES_NEEDED then MIN_BYTES_NEEDED - |rest| else needed
  }

  lemma {:induction false} NoiseAfterPairs(b: bytes, pairs: nat)
    requires CrLfs(pairs) <= b
    ensures Noise(b) == 2 * pairs + Noise(b[2 * pairs..])
  {
    if pairs == 0 {
      assert b[0..] == b;
    } else {
      assert b[..2] == CrLfs(pairs)[..2] == CRLF;
      assert b[0] == b[..2][0] && b[1] == b[..2][1];
      assert CrLfs(pairs)[2..] == CrLfs(pairs - 1) <= b[2..];
      NoiseAfterPairs(b[2..], pairs - 1);
      assert b[2..][2 * (pairs - 1)..] == b[2 * pairs..];
    }
  }

  lemma {:induction false} OneMorePair(pairs: nat)
    ensures CrLfs(pairs + 1) == CrLfs(pairs) + CRLF
  {
    if pairs > 0 {
      OneMorePair(pairs - 1);
      assert CRLF + (CrLfs(pairs - 1) + CRLF) == CRLF + CrLfs(pairs - 1) + CRLF;
    }
  }

  /** The inner loop of skipNoise: the CRLF pairs at the start of one buffer. */
  method PairsInBuffer(buf: bytes) returns (i: nat, ghost pairs: nat)
    ensures i == 2 * pairs && CrLfs(pairs) <= buf
    ensures i + 1 < |buf| ==> !(buf[i] == CR && buf[i + 1] == LF)
  {
    i, pairs := 0, 0;
    while i + 1 < |buf| && buf[i] == CR && buf[i + 1] == LF
      invariant i == 2 * pairs && i <= |buf| && buf[..i] == CrLfs(pairs)
    {
      OneMorePair(pairs);
      assert buf[..i + 2] == buf[..i] + CRLF;
      i, pairs := i + 2, pairs + 1;
    }
  }

  lemma NoiseStep(b: bytes)
    ensures Noise(b) == if StartsWithCrLf(b) then 2 + Noise(b[2..]) else 0
  {
  }

  method SkipNoise(c: Cursor)
    requires c.Valid()
    modifies c
    ensures c.Valid() && c.Remaining() == old(c.Remaining())[Noise(old(c.Remaining()))..]
  {
    hide Noise, CrLfs, Cursor.Valid, Cursor.Remaining;
    ghost var all := c.Remaining();
    ghost var done := 0;
    var total := c.TotalLength();
    var more := true;
    while more && total >= 2
      invariant c.Valid() && total == |c.Remaining()|
      invariant 0 <= done <= |all| && c.Remaining() == all[done..]
      invariant Noise(all) == done + Noise(c.Remaining())
      invariant !more ==> Noise(c.Remaining()) == 0
      decreases more, total
    {
      ghost var skipped;
      more, skipped := SkipPairs(c);
      Slices(all, done, skipped, 0);
      done := done + skipped;
      total := c.TotalLength();
    }
    NoiseStep(c.Remaining());
  }

  /** One turn of the outer loop: the pairs of the current buffer, or the one pair that begins at its
      end. `more` is false when something other than a pair was found. */
  method SkipPairs(c: Cursor) returns (more: bool, ghost skipped: nat)
    requires c.Valid() && |c.Remaining()| >= 2
    modifies c
    ensures c.Valid() && skipped <= |old(c.Remaining())| && c.Remaining() == old(c.Remaining())[skipped..]
    ensures Noise(old(c.Remaining())) == skipped + Noise(c.Remaining())
    ensures if more then skipped > 0 else Noise(c.Remaining()) == 0
  {
    hide Noise, CrLfs, Cursor.Valid, Cursor.Remaining;
    ghost var here := c.Remaining();
    var buf := c.Data();
    if |buf| < 2 {
      NoiseStep(here);
      more := AtPair(c);
      if more {
        c.Skip(2);
        skipped := 2;
      } else {
        skipped := 0;
        assert here[0..] == here;
      }
    } else {
      var i;
      ghost var pairs;
      i, pairs := PairsInBuffer(buf);
      NoiseAfterPairs(here, pairs);
      c.Skip(i);
      skipped := i;
      more := i + 1 >= |buf|;
      if !more {
        assert here[i] == buf[i] && here[i + 1] == buf[i + 1];
        NoiseStep(here[i..]);
      }
    }
  }

  /** A look at the next two bytes through a copy of the cursor. */
  method AtPair(c: Cursor) returns (pair: bool)
    requires c.Valid() && |c.Remaining()| >= 2
    ensures pair == StartsWithCrLf(c.Remaining())
  {
    var tmp := new Cursor.Copy(c);
    var first := tmp.Read();
    if first != CR {
      return false;
    }
    var second := tmp.Read();
    return second == LF;
  }

  /** readLength; `needed` is meaningful only when more bytes are needed. */
  method ReadLengthField(indicator: byte, c: Cursor) returns (field: LengthField)
    requires c.Valid()
    modifies c
    ensures c.Valid()
    ensures field == ReadLength(indicator, old(c.Remaining()))
    ensures !field.MoreBytes? ==> c.Remaining() == old(c.Remaining())[field.used..]
  {
    ghost var b := c.Remaining();
    var total := c.TotalLength();
    if total < MIN_BYTES_NEEDED {
      return MoreBytes(MIN_BYTES_NEEDED - total);
    }
    var read := c.ReadTerminatedString(CR);
    if read.None? {
      return MoreBytes(2);
    }
    var text := read.value;
    total := c.TotalLength();
    if total == 0 {
      return MoreBytes(1);
    }
    var next := c.Read();
    assert next == b[|text| + 1];
    if next != LF {
      return Invalid(|text| + 2);
    }
    if |text| < 2 || text[0] != indicator {
      return Invalid(|text| + 2);
    }
    assert text[1..] == b[1..|text|];
    match ParseInt64(text[1..])
    case Some(n) => return Valid(n, |text| + 2);
    case None => return Invalid(|text| + 2);
  }

  lemma AfterNext(strings: seq<bytes>, used: nat, n: nat, b: bytes)
    requires n > 0
    ensures After(strings, used, ReadStrings(n, b)) ==
            match ReadOne(b)
            case Strings(ss, u) => After(strings + ss, used + u, ReadStrings(n - 1, b[u..]))
            case Bad(e, u) => Bad(e, used + u)
            case Short(m) => Short(m)
  {
    hide ReadOne;
    var item := ReadOne(b);
    if item.Strings? && ReadStrings(n - 1, b[item.used..]).Strings? {
      var more := ReadStrings(n - 1, b[item.used..]).strs;
      assert strings + (item.strs + more) == strings + item.strs + more;
    }
  }

  lemma AfterLast(strings: seq<bytes>, used: nat, b: bytes)
    ensures After(strings, used, ReadStrings(0, b)) == Strings(strings, used)
  {
    assert strings + [] == strings;
  }

  lemma Slices(b: bytes, u: nat, n: nat, r: nat)
    requires u + n + r <= |b|
    ensures b[u..][..n] == b[u..u + n]
    ensures b[u..][n..] == b[u + n..] && b[u..][n..][r..] == b[u + n + r..]
    ensures u + n + 1 < |b| ==> b[u..][n..][0] == b[u + n] && b[u..][n..][1] == b[u + n + 1]
  {
  }

  /** One turn of the loop in decode: a length field, the string and its CRLF. */
  method ReadString(c: Cursor) returns (item: Items)
    requires c.Valid()
    modifies c
    ensures c.Valid()
    ensures item == ReadOne(old(c.Remaining()))
    ensures !item.Short? ==> c.Remaining() == old(c.Remaining())[item.used..]
  {
    hide ReadLength, Cursor.Valid, Cursor.Remaining, ExpectCrLf, InvalidBulkLength;
    ghost var b := c.Remaining();
    var field := ReadLengthField(DOLLAR, c);
    match field
    case Invalid(u) => return Bad(InvalidBulkLength(), u);
    case MoreBytes(m) => return Short(m);
    case Valid(length, u) =>
      if length < 0 {
        return Bad(InvalidBulkLength(), u);
      }
      item := ReadBody(c, b, u, length);
  }

  /** The string behind a length field that ended at u. */
  method ReadBody(c: Cursor, ghost b: bytes, u: nat, length: nat) returns (item: Items)
    requires c.Valid() && u <= |b| && c.Remaining() == b[u..]
    modifies c
    ensures c.Valid()
    ensures item == if |b| - u < length + 2 then Short(length + 2 - (|b| - u))
                    else if b[u + length] != CR then Bad(ExpectCrLf(), u + length + 1)
                    else if b[u + length + 1] != LF then Bad(ExpectCrLf(), u + length + 2)
                    else Strings([b[u..u + length]], u + length + 2)
    ensures !item.Short? ==> c.Remaining() == b[item.used..]
  {
    hide Cursor.Valid, Cursor.Remaining, ExpectCrLf;
    var total := c.TotalLength();
    if total < length + 2 {
      return Short(length + 2 - total);
    }
    var str := c.ReadFixedString(length);
    var ok, read := ReadCrLf(c);
    Slices(b, u, length, read);
    return if ok then Strings([str], u + length + read) else Bad(ExpectCrLf(), u + length + read);
  }

  /** The check behind each string; the second byte is not read when the first is wrong. */
  method ReadCrLf(c: Cursor) returns (ok: bool, read: nat)
    requires c.Valid() && |c.Remaining()| >= 2
    modifies c
    ensures c.Valid()
    ensures var b := old(c.Remaining());
            && ok == StartsWithCrLf(b)
            && read == (if b[0] == CR then 2 else 1)
            && c.Remaining() == b[read..]
  {
    var first := c.Read();
    if first != CR {
      return false, 1;
    }
    var second := c.Read();
    return second == LF, 2;
  }

  method ReadAllStrings(n: nat, c: Cursor) returns (items: Items)
    requires c.Valid()
    modifies c
    ensures c.Valid()
    ensures items == ReadStrings(n, old(c.Remaining()))
    ensures !items.Short? ==> c.Remaining() == old(c.Remaining())[items.used..]
  {
    hide ReadOne, ReadStrings, After, Cursor.Valid, Cursor.Remaining;
    ghost var b := c.Remaining();
    var strings: seq<bytes>, used: nat := [], 0;
    AfterNothing(ReadStrings(n, b));
    for i := 0 to n
      invariant c.Valid() && used <= |b| && c.Remaining() == b[used..]
      invariant After(strings, used, ReadStrings(n - i, c.Remaining())) == ReadStrings(n, b)
    {
      ghost var here := c.Remaining();
      AfterNext(strings, used, n - i, here);
      var item := ReadString(c);
      if item.Short? {
        return item;
      }
      Slices(b, used, item.used, 0);
      if item.Bad? {
        return Bad(item.error, used + item.used);
      }
      strings, used := strings + item.strs, used + item.used;
    }
    AfterLast(strings, used, c.Remaining());
    return Strings(strings, used);
  }

  lemma AfterNothing(items: Items)
    ensures After([], 0, items) == items
  {
    if items.Strings? {
      assert [] + items.strs == items.strs;
    }
  }

  /** decode: None is `return false`. */
  method DecodeMessage(buf: IOBufQueue, needed0: nat) returns (result: Option<RedisValue>, needed: nat)
    modifies buf
    ensures match Decode(old(buf.Contents()))
            case Emit(v, rest) =>
              result == Some(v) && buf.Contents() == rest && needed == if |rest| < 2 then 2 - |rest| else needed0
            case Wait(rest, m) =>
              result == None && buf.Contents() == rest && needed == m
  {
    hide DecodeTrimmed;
    needed := needed0;
    var length := buf.ChainLength();
    if length < MIN_BYTES_NEEDED {
      return None, MIN_BYTES_NEEDED - length;
    }
    var curr := new Cursor(buf.chain);
    SkipNoise(curr);
    var left := curr.TotalLength();
    buf.TrimStart(length - left);
    if left == 0 {
      return None, MIN_BYTES_NEEDED;
    }
    result, needed := DecodeRequest(buf, needed);
  }

  /** The rest of decode, from the first byte after the noise. */
  method DecodeRequest(buf: IOBufQueue, needed0: nat) returns (result: Option<RedisValue>, needed: nat)
    requires buf.Contents() != []
    modifies buf
    ensures match DecodeTrimmed(old(buf.Contents()))
            case Emit(v, rest) =>
              result == Some(v) && buf.Contents() == rest && needed == NeededAfter(needed0, rest)
            case Wait(rest, m) =>
              result == None && buf.Contents() == rest && needed == m
  {
    hide ReadLength, ReadStrings, Cursor.Valid, Cursor.Remaining;
    ghost var b := buf.Contents();
    var curr := new Cursor(buf.chain);
    assert curr.Remaining() == b;
    var field := ReadLengthField(STAR, curr);
    match field
    case MoreBytes(m) => return None, m;
    case Invalid(u) =>
      needed := Consume(buf, u, needed0);
      return Some(InvalidArrayLength()), needed;
    case Valid(n, u) =>
      if n <= 0 {
        needed := Consume(buf, u, needed0);
        return Some(InvalidArrayLength()), needed;
      }
      var items := ReadAllStrings(n, curr);
      match items
      case Short(m) => return None, m;
      case Bad(e, v) =>
        needed := Consume(buf, u + v, needed0);
        return Some(e), needed;
      case Strings(ss, v) =>
        needed := Consume(buf, u + v, needed0);
        return Some(BulkStringArray(ss)), needed;
  }

  /** The common tail of every `return true`. */
  method Consume(buf: IOBufQueue, used: nat, needed0: nat) returns (needed: nat)
    requires used <= |buf.Contents()|
    modifies buf
    ensures buf.Contents() == old(buf.Contents())[used..]
    ensures needed == NeededAfter(needed0, buf.Contents())
  {
    buf.TrimStart(used);
    var left := buf.ChainLength();
    needed := if left < MIN_BYTES_NEEDED then MIN_BYTES_NEEDED - left else needed0;
  }

  /** One chunk arriving on a connection: it is appended and decode is called until it waits. */
  method Receive(buf: IOBufQueue, chunk: bytes) returns (values: seq<RedisValue>)
    modifies buf
    ensures Decoded(values, buf.Contents()) == DecodeAll(old(buf.Contents()) + chunk)
  {
    hide Decode;
    buf.Append(chunk);
    ghost var b := buf.Contents();
    values := [];
    var more := true;
    while more
      invariant DecodeAll(b) ==
                (if more then var d := DecodeAll(buf.Contents()); Decoded(values + d.values, d.left)
                 else Decoded(values, buf.Contents()))
      decreases more, |buf.Contents()|
    {
      ghost var here := buf.Contents();
      if Decode(here).Emit? {
        DecodeEmits(here);
      }
      var result, needed := DecodeMessage(buf, 0);
      match result
      case None =>
        more := false;
        assert values + [] == values;
      case Some(v) =>
        ghost var d := DecodeAll(buf.Contents());
        assert values + ([v] + d.values) == values + [v] + d.values;
        values := values + [v];
    }
  }

  /** A whole connection: the chunks arrive one after the other. */
  method ReceiveAll(buf: IOBufQueue, chunks: seq<bytes>) returns (values: seq<RedisValue>)
    requires buf.chain == []
    modifies buf
    ensures Decoded(values, buf.Contents()) == DecodeAll(Flatten(chunks))
  {
    hide Decode, DecodeAll;
    ChunkingIndependence(chunks);
    values := [];
    assert chunks[0..] == chunks;
    for i := 0 to |chunks|
      invariant DecodeAll(Flatten(chunks)) ==
                (var d := DecodeChunks(buf.Contents(), chunks[i..]); Decoded(values + d.values, d.left))
    {
      ghost var here := buf.Contents();
      assert chunks[i..][1..] == chunks[i + 1..];
      var now := Receive(buf, chunks[i]);
      ghost var later := DecodeChunks(buf.Contents(), chunks[i + 1..]);
      assert values + (now + later.values) == values + now + later.values;
      values := values + now;
    }
    assert values + [] == values;
  }
}
