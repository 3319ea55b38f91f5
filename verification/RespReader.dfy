/**
 A client's reader of replies, written from the Redis serialization protocol (RESP2, sections
 "Simple strings", "Errors", "Integers", "Bulk strings" and "Arrays") and not from the encoder. That
 it reads back every encoded value is what makes the encoding a code: no reply is a prefix of
 another, and a stream of replies splits in one way only.
 */
module RespReaders {
  import opened Bytes
  import opened Decimal
  import opened RedisValues

  datatype Read = Read(value: RedisValue, rest: bytes)
  datatype ReadMany = ReadMany(values: seq<RedisValue>, rest: bytes)
  datatype Line = Line(text: bytes, rest: bytes)

  /** The bytes up to the first CR, which must begin a CRLF. */
  function ReadLine(b: bytes): (r: Option<Line>)
    ensures r.Some? ==> |r.value.text| + 2 + |r.value.rest| == |b|
  {
    var k := IndexOf(13, b);
    if k + 1 < |b| && b[k + 1] == 10 then Some(Line(b[..k], b[k + 2..])) else None
  }

  function ReadReply(b: bytes): (r: Option<Read>)
    ensures r.Some? ==> |r.value.rest| < |b|
    decreases |b|, 0
  {
    var line := ReadLine(b);
    if line.None? || line.value.text == [] then None
    else
      var Line(head, rest) := line.value;
      var text := head[1..];
      if head[0] == 43 then Some(Read(SimpleString(text), rest))
      else if head[0] == 45 then Some(Read(Error(text), rest))
      else
        var n := ReadSigned(text);
        if n.None? then None
        else if head[0] == 58 then Some(Read(Integer(n.value), rest))
        else if head[0] == 36 then ReadBulk(n.value, rest)
        else if head[0] == 42 && n.value >= 0 then
          (match ReadReplies(n.value, rest)
           case Some(many) => Some(Read(Array(many.values), many.rest))
           case None => None)
        else None
  }

  function ReadBulk(n: int, b: bytes): (r: Option<Read>)
    ensures r.Some? ==> |r.value.rest| <= |b|
  {
    if n == -1 then Some(Read(NullString, b))
    else if n < 0 || |b| < n + 2 || b[n..n + 2] != [13, 10] then None
    else Some(Read(BulkString(b[..n]), b[n + 2..]))
  }

  function ReadReplies(n: nat, b: bytes): (r: Option<ReadMany>)
    ensures r.Some? ==> |r.value.rest| <= |b|
    decreases |b|, n + 1
  {
    if n == 0 then Some(ReadMany([], b))
    else
      var first := ReadReply(b);
      if first.None? then None
      else
        match ReadReplies(n - 1, first.value.rest)
        case Some(more) => Some(ReadMany([first.value.value] + more.values, more.rest))
        case None => None
  }

  lemma ReadLineOf(text: bytes, rest: bytes)
    requires CR !in text
    ensures ReadLine(text + CRLF + rest) == Some(Line(text, rest))
  {
    var b := text + CRLF + rest;
    assert b == text + [CR] + ([LF] + rest);
    IndexOfFirst(CR, text, [LF] + rest);
    assert b[..|text|] == text && b[|text| + 1] == LF && b[|text| + 2..] == rest;
  }

  /** The reader on a first line of indicator and number. */
  lemma ReadHead(indicator: byte, n: int, rest: bytes)
    requires indicator != CR
    ensures var b := [indicator] + Print(n) + CRLF + rest;
            && ReadLine(b) == Some(Line([indicator] + Print(n), rest))
            && ([indicator] + Print(n))[1..] == Print(n)
            && ReadSigned(Print(n)) == Some(n)
  {
    PrintIsLine(n);
    ReadLineOf([indicator] + Print(n), rest);
    ReadPrint(n);
  }

  lemma ReadText(indicator: byte, text: bytes, rest: bytes)
    requires indicator == PLUS || indicator == MINUS
    requires CR !in text
    ensures ReadReply([indicator] + text + CRLF + rest) ==
            Some(Read(if indicator == PLUS then SimpleString(text) else Error(text), rest))
  {
    ReadLineOf([indicator] + text, rest);
    assert ([indicator] + text)[1..] == text;
  }

  lemma ReadBulkOf(s: bytes, rest: bytes)
    ensures ReadReply(EncodeBulk(s) + rest) == Some(Read(BulkString(s), rest))
  {
    hide ReadLine, Print, ReadSigned;
    var tail := s + CRLF + rest;
    assert EncodeBulk(s) + rest == [DOLLAR] + Print(|s|) + CRLF + tail;
    ReadHead(DOLLAR, |s|, tail);
    assert tail[..|s|] == s && tail[|s|..|s| + 2] == CRLF && tail[|s| + 2..] == rest;
  }

  lemma ReadArray(n: nat, body: bytes)
    ensures ReadReply([STAR] + Print(n) + CRLF + body) ==
            match ReadReplies(n, body)
            case Some(many) => Some(Read(Array(many.values), many.rest))
            case None => None
  {
    hide ReadLine, Print, ReadSigned, ReadReplies;
    ReadHead(STAR, n, body);
  }

  lemma ReadNumber(indicator: byte, n: int, rest: bytes)
    requires indicator == COLON || (indicator == DOLLAR && n == -1)
    ensures ReadReply([indicator] + Print(n) + CRLF + rest) ==
            Some(Read(if indicator == COLON then Integer(n) else NullString, rest))
  {
    hide ReadLine, Print, ReadSigned;
    ReadHead(indicator, n, rest);
  }

  /** Every encoded value, arrays nested to any depth, is read back as it is on the wire, and the
      bytes after it are left. */
  lemma {:induction false} ReadEncoded(v: RedisValue, rest: bytes)
    requires Encodable(v)
    ensures ReadReply(Encode(v) + rest) == Some(Read(Wire(v), rest))
    decreases v, 1
  {
    hide ReadReply, ReadReplies, Print;
    match v
    case Integer(n) => ReadNumber(COLON, n, rest);
    case Error(m) => ReadText(MINUS, Escape(m), rest);
    case SimpleString(s) => ReadText(PLUS, Escape(s), rest);
    case BulkString(s) => ReadBulkOf(s, rest);
    case NullString => ReadNumber(DOLLAR, -1, rest);
    case Array(elems) =>
      assert Encode(v) + rest == [STAR] + Print(|elems|) + CRLF + (EncodeAll(elems) + rest);
      ReadArray(|elems|, EncodeAll(elems) + rest);
      ReadEncodedAll(elems, rest);
    case BulkStringArray(ss) =>
      assert Encode(v) + rest == [STAR] + Print(|ss|) + CRLF + (EncodeStrings(ss) + rest);
      ReadArray(|ss|, EncodeStrings(ss) + rest);
      ReadEncodedStrings(ss, rest);
  }

  lemma {:induction false} ReadEncodedAll(vs: seq<RedisValue>, rest: bytes)
    requires AllEncodable(vs)
    ensures ReadReplies(|vs|, EncodeAll(vs) + rest) == Some(ReadMany(WireAll(vs), rest))
    decreases vs, 0
  {
    hide ReadReply, Encode, Wire;
    if vs == [] {
      assert EncodeAll(vs) + rest == rest;
    } else {
      assert EncodeAll(vs) + rest == Encode(vs[0]) + (EncodeAll(vs[1..]) + rest);
      ReadEncoded(vs[0], EncodeAll(vs[1..]) + rest);
      ReadEncodedAll(vs[1..], rest);
    }
  }

  lemma {:induction false} ReadEncodedStrings(ss: seq<bytes>, rest: bytes)
    ensures ReadReplies(|ss|, EncodeStrings(ss) + rest) == Some(ReadMany(Bulks(ss), rest))
  {
    hide ReadReply, EncodeBulk;
    if ss == [] {
      assert EncodeStrings(ss) + rest == rest;
    } else {
      assert EncodeStrings(ss) + rest == EncodeBulk(ss[0]) + (EncodeStrings(ss[1..]) + rest);
      ReadBulkOf(ss[0], EncodeStrings(ss[1..]) + rest);
      ReadEncodedStrings(ss[1..], rest);
    }
  }

  // ----- framing

  /** A stream that starts with the encoding of a value starts with that of no other: both the
      value on the wire and the bytes after it are determined. */
  lemma Framing(v: RedisValue, w: RedisValue, x: bytes, y: bytes)
    requires Encodable(v) && Encodable(w)
    requires Encode(v) + x == Encode(w) + y
    ensures Wire(v) == Wire(w) && x == y
  {
    hide Encode, ReadReply, Wire;
    ReadEncoded(v, x);
    ReadEncoded(w, y);
  }

  /** Two values have the same encoding exactly when they are the same on the wire. */
  lemma EncodeEquality(v: RedisValue, w: RedisValue)
    requires Encodable(v) && Encodable(w)
    ensures Encode(v) == Encode(w) <==> Wire(v) == Wire(w)
  {
    hide Encode, Wire;
    WireEncodes(v);
    WireEncodes(w);
    if Encode(v) == Encode(w) {
      Framing(v, w, [], []);
    }
  }

  /** No encoding is a proper prefix of another. */
  lemma PrefixFree(v: RedisValue, w: RedisValue)
    requires Encodable(v) && Encodable(w) && Encode(v) <= Encode(w)
    ensures Encode(v) == Encode(w)
  {
    hide Encode, Wire;
    var rest := Encode(w)[|Encode(v)|..];
    assert Encode(v) + rest == Encode(w) + [];
    Framing(v, w, rest, []);
    assert Encode(v) + [] == Encode(v);
  }

  /** A concatenation of replies splits in one way only. */
  lemma {:induction false} RepliesSplitUniquely(vs: seq<RedisValue>, ws: seq<RedisValue>)
    requires AllEncodable(vs) && AllEncodable(ws)
    requires EncodeAll(vs) == EncodeAll(ws)
    ensures |vs| == |ws| && WireAll(vs) == WireAll(ws)
  {
    if vs == [] || ws == [] {
    } else {
      hide Encode, Wire;
      Framing(vs[0], ws[0], EncodeAll(vs[1..]), EncodeAll(ws[1..]));
      RepliesSplitUniquely(vs[1..], ws[1..]);
    }
  }
}
