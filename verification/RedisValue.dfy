/**
 Redis values and their wire form (codec/RedisValue).

 The wire form forgets two things about a value: whether an array of bulk strings was built as
 such, and whether a line break in a simple string or an error was already escaped. `Wire` is the
 value with exactly that forgotten.
 */
module RedisValues {
  import opened Bytes
  import opened Decimal

  datatype RedisValue =
    | Integer(n: int)
    | Error(msg: bytes)
    | SimpleString(str: bytes)
    | BulkString(bulk: bytes)
    | Array(elems: seq<RedisValue>)
    | BulkStringArray(strs: seq<bytes>)
    | NullString
    | AsyncResult

  const COLON: byte := 58
  const DOLLAR: byte := 36
  const STAR: byte := 42
  const BACKSLASH: byte := 92

  /** RedisValue::kTypeIndicators; there is none for an asynchronous result. */
  function TypeIndicator(v: RedisValue): byte
    requires !v.AsyncResult?
  {
    match v
    case Integer(_) => COLON
    case Error(_) => MINUS
    case SimpleString(_) => PLUS
    case BulkString(_) => DOLLAR
    case NullString => DOLLAR
    case Array(_) => STAR
    case BulkStringArray(_) => STAR
  }

  /** Encoding an asynchronous result, at any depth, aborts the process. */
  predicate Encodable(v: RedisValue) {
    match v
    case AsyncResult => false
    case Array(elems) => forall e | e in elems :: Encodable(e)
    case _ => true
  }

  predicate AllEncodable(vs: seq<RedisValue>) {
    forall v | v in vs :: Encodable(v)
  }

  function EscapeByte(c: byte): bytes {
    if c == CR then [BACKSLASH, 114] else if c == LF then [BACKSLASH, 110] else [c]
  }

  function Escape(s: bytes): (r: bytes)
    ensures CR !in r && LF !in r
  {
    if s == [] then [] else Escape(s[..|s| - 1]) + EscapeByte(s[|s| - 1])
  }

  function EncodeBulk(s: bytes): bytes {
    [DOLLAR] + Print(|s|) + CRLF + s + CRLF
  }

  function EncodeStrings(ss: seq<bytes>): bytes {
    if ss == [] then [] else EncodeBulk(ss[0]) + EncodeStrings(ss[1..])
  }

  function Encode(v: RedisValue): bytes
    requires Encodable(v)
    decreases v, 1
  {
    match v
    case Integer(n) => [COLON] + Print(n) + CRLF
    case Error(m) => [MINUS] + Escape(m) + CRLF
    case SimpleString(s) => [PLUS] + Escape(s) + CRLF
    case BulkString(s) => EncodeBulk(s)
    case Array(elems) => [STAR] + Print(|elems|) + CRLF + EncodeAll(elems)
    case BulkStringArray(ss) => [STAR] + Print(|ss|) + CRLF + EncodeStrings(ss)
    case NullString => [DOLLAR] + Print(-1) + CRLF
  }

  function EncodeAll(vs: seq<RedisValue>): bytes
    requires AllEncodable(vs)
    decreases vs, 0
  {
    if vs == [] then [] else Encode(vs[0]) + EncodeAll(vs[1..])
  }

  // ----- encode() as the source computes it: a stream appended to in loops

  method EncodeToStream(v: RedisValue) returns (ss: bytes)
    requires Encodable(v)
    ensures ss == Encode(v)
    decreases v, 1
  {
    ss := [TypeIndicator(v)];
    match v
    case Integer(n) =>
      ss := ss + Print(n) + CRLF;
    case Error(m) =>
      ss := EscapeToStream(ss, m);
      ss := ss + CRLF;
    case SimpleString(s) =>
      ss := EscapeToStream(ss, s);
      ss := ss + CRLF;
    case BulkString(s) =>
      ss := ss + Print(|s|) + CRLF + s + CRLF;
    case Array(elems) =>
      ss := AppendElements(ss + Print(|elems|) + CRLF, elems);
    case BulkStringArray(strs) =>
      ss := AppendStrings(ss + Print(|strs|) + CRLF, strs);
    case NullString =>
      ss := ss + Print(-1) + CRLF;
  }

  method AppendElements(stream: bytes, elems: seq<RedisValue>) returns (ss: bytes)
    requires AllEncodable(elems)
    ensures ss == stream + EncodeAll(elems)
    decreases elems, 0
  {
    ss := stream;
    for i := 0 to |elems|
      invariant ss + EncodeAll(elems[i..]) == stream + EncodeAll(elems)
    {
      var elem := EncodeToStream(elems[i]);
      assert elems[i..][1..] == elems[i + 1..];
      ss := ss + elem;
    }
  }

  method AppendStrings(stream: bytes, strs: seq<bytes>) returns (ss: bytes)
    ensures ss == stream + EncodeStrings(strs)
  {
    ss := stream;
    for i := 0 to |strs|
      invariant ss + EncodeStrings(strs[i..]) == stream + EncodeStrings(strs)
    {
      assert strs[i..][1..] == strs[i + 1..];
      ss := ss + ([DOLLAR] + Print(|strs[i]|) + CRLF + strs[i] + CRLF);
    }
  }

  method EscapeToStream(stream: bytes, s: bytes) returns (ss: bytes)
    ensures ss == stream + Escape(s)
  {
    ss := stream;
    for i := 0 to |s|
      invariant ss == stream + Escape(s[..i])
    {
      assert s[..i + 1][..i] == s[..i];
      assert stream + Escape(s[..i + 1]) == stream + Escape(s[..i]) + EscapeByte(s[i]);
      if s[i] == CR {
        ss := ss + [BACKSLASH, 114];
      } else if s[i] == LF {
        ss := ss + [BACKSLASH, 110];
      } else {
        ss := ss + [s[i]];
      }
    }
    assert s[..|s|] == s;
  }

  // ----- the wire format, byte for byte

  function EscapedAt(s: bytes, i: nat): bytes
    requires i < |s|
  {
    if s[i] == 13 then [92, 114] else if s[i] == 10 then [92, 110] else [s[i]]
  }

  /** CR and LF become a backslash and a letter; every other byte stands for itself. */
  lemma {:induction false} EscapeText(s: bytes)
    ensures Escape(s) == Flatten(seq(|s|, i requires 0 <= i < |s| => EscapedAt(s, i)))
  {
    if s != [] {
      var init := s[..|s| - 1];
      EscapeText(init);
      var chain := seq(|s|, i requires 0 <= i < |s| => EscapedAt(s, i));
      var front := seq(|init|, i requires 0 <= i < |init| => EscapedAt(init, i));
      assert chain == front + [EscapedAt(s, |s| - 1)];
      FlattenAppend(front, [EscapedAt(s, |s| - 1)]);
      FlattenOne(EscapedAt(s, |s| - 1));
    }
  }

  function BulkText(s: bytes): bytes {
    [36] + Print(|s|) + [13, 10] + s + [13, 10]
  }

  lemma {:induction false} EncodeAllText(vs: seq<RedisValue>)
    requires AllEncodable(vs)
    ensures EncodeAll(vs) == Flatten(seq(|vs|, i requires 0 <= i < |vs| => Encode(vs[i])))
  {
    hide Encode, Encodable;
    if vs != [] {
      EncodeAllText(vs[1..]);
      var chain := seq(|vs|, i requires 0 <= i < |vs| => Encode(vs[i]));
      assert chain[1..] == seq(|vs[1..]|, i requires 0 <= i < |vs[1..]| => Encode(vs[1..][i]));
    }
  }

  lemma {:induction false} EncodeStringsText(ss: seq<bytes>)
    ensures EncodeStrings(ss) == Flatten(seq(|ss|, i requires 0 <= i < |ss| => BulkText(ss[i])))
  {
    hide Print;
    if ss != [] {
      EncodeStringsText(ss[1..]);
      var chain := seq(|ss|, i requires 0 <= i < |ss| => BulkText(ss[i]));
      assert chain[1..] == seq(|ss[1..]|, i requires 0 <= i < |ss[1..]| => BulkText(ss[1..][i]));
    }
  }

  /** The encoding of every value as section "RESP protocol description" of the Redis serialization
      protocol has it: `:` and a number, `-` or `+` and a text, `$` with a length and bytes, `*` with a
      count and elements, `$-1` for null, each line ended by CR LF. */
  lemma WireFormat(v: RedisValue)
    requires Encodable(v)
    ensures match v
            case Integer(n) => Encode(v) == [58] + Print(n) + [13, 10]
            case Error(m) => Encode(v) == [45] + Escape(m) + [13, 10]
            case SimpleString(s) => Encode(v) == [43] + Escape(s) + [13, 10]
            case BulkString(s) => Encode(v) == BulkText(s)
            case NullString => Encode(v) == [36, 45, 49, 13, 10]
            case Array(vs) =>
              Encode(v) ==
                [42] + Print(|vs|) + [13, 10] + Flatten(seq(|vs|, i requires 0 <= i < |vs| => Encode(vs[i])))
            case BulkStringArray(ss) =>
              Encode(v) ==
                [42] + Print(|ss|) + [13, 10] + Flatten(seq(|ss|, i requires 0 <= i < |ss| => BulkText(ss[i])))
  {
    PrintText(-1);
    PrintText(1);
    hide Print;
    match v
    case Array(vs) => EncodeAllText(vs);
    case BulkStringArray(ss) => EncodeStringsText(ss);
    case _ =>
  }

  // ----- what a value is on the wire

  function Bulks(ss: seq<bytes>): seq<RedisValue> {
    if ss == [] then [] else [BulkString(ss[0])] + Bulks(ss[1..])
  }

  function Wire(v: RedisValue): RedisValue
    decreases v, 1
  {
    match v
    case Error(m) => Error(Escape(m))
    case SimpleString(s) => SimpleString(Escape(s))
    case Array(elems) => Array(WireAll(elems))
    case BulkStringArray(ss) => Array(Bulks(ss))
    case _ => v
  }

  function WireAll(vs: seq<RedisValue>): (ws: seq<RedisValue>)
    ensures |ws| == |vs|
    decreases vs, 0
  {
    if vs == [] then [] else [Wire(vs[0])] + WireAll(vs[1..])
  }

  lemma {:induction false} BulksAreEncodable(ss: seq<bytes>)
    ensures AllEncodable(Bulks(ss)) && |Bulks(ss)| == |ss|
    ensures WireAll(Bulks(ss)) == Bulks(ss)
  {
    if ss != [] {
      BulksAreEncodable(ss[1..]);
      assert Bulks(ss)[1..] == Bulks(ss[1..]);
    }
  }

  lemma {:induction false} StringsAsBulks(ss: seq<bytes>)
    ensures AllEncodable(Bulks(ss)) && EncodeStrings(ss) == EncodeAll(Bulks(ss))
  {
    BulksAreEncodable(ss);
    if ss != [] {
      StringsAsBulks(ss[1..]);
      assert Bulks(ss)[1..] == Bulks(ss[1..]);
    }
  }

  /** A bulk-string array is encoded as the general array of the same bulk strings. */
  lemma BulkStringArrayIsArray(ss: seq<bytes>)
    ensures Encodable(Array(Bulks(ss)))
    ensures Encode(BulkStringArray(ss)) == Encode(Array(Bulks(ss)))
  {
    BulksAreEncodable(ss);
    StringsAsBulks(ss);
  }

  lemma {:induction false} EscapeFixes(s: bytes)
    requires CR !in s && LF !in s
    ensures Escape(s) == s
  {
    if s != [] {
      var init, last := s[..|s| - 1], s[|s| - 1];
      assert last in s;
      assert EscapeByte(last) == [last];
      EscapeFixes(init);
      assert init + [last] == s;
    }
  }

  /** The wire value of an encodable value has the same encoding. */
  lemma {:induction false} WireEncodes(v: RedisValue)
    requires Encodable(v)
    ensures Encodable(Wire(v)) && Encode(Wire(v)) == Encode(v)
    decreases v, 1
  {
    match v
    case Error(m) => EscapeFixes(Escape(m));
    case SimpleString(s) => EscapeFixes(Escape(s));
    case Array(elems) => WireAllEncodes(elems);
    case BulkStringArray(ss) => BulkStringArrayIsArray(ss);
    case _ =>
  }

  lemma {:induction false} WireAllEncodes(vs: seq<RedisValue>)
    requires AllEncodable(vs)
    ensures AllEncodable(WireAll(vs)) && EncodeAll(WireAll(vs)) == EncodeAll(vs)
    decreases vs, 0
  {
    if vs != [] {
      WireEncodes(vs[0]);
      WireAllEncodes(vs[1..]);
      assert WireAll(vs)[1..] == WireAll(vs[1..]);
    }
  }
}
