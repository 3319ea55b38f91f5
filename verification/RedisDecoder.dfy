/**
 The request decoder (codec/RedisDecoder) as a function of the buffered bytes.

 The decoder keeps nothing between calls: each call trims leading CRLF pairs, parses from the
 first byte left, and either emits a value and the bytes after it, or waits for more bytes.
 */
module RedisDecoders {
  import opened Bytes
  import opened Decimal
  import opened RedisValues

  const MIN_BYTES_NEEDED: nat := 2

  function InvalidArrayLength(): RedisValue { Error(Ascii("Protocol Error: Invalid Array length")) }
  function InvalidBulkLength(): RedisValue { Error(Ascii("Protocol Error: Invalid Bulk String length")) }
  function ExpectCrLf(): RedisValue { Error(Ascii("Protocol Error: Expect '\\r\\n'")) }

  // ----- the pieces of decode()

  predicate StartsWithCrLf(b: bytes) {
    |b| >= 2 && b[0] == CR && b[1] == LF
  }

  /** How many leading bytes skipNoise passes over. */
  function Noise(b: bytes): (k: nat)
    ensures k <= |b|
  {
    if StartsWithCrLf(b) then 2 + Noise(b[2..]) else 0
  }

  datatype LengthField =
    | Invalid(used: nat)
    | MoreBytes(needed: nat)
    | Valid(length: int, used: nat)

  function ReadLength(indicator: byte, b: bytes): (r: LengthField)
    ensures !r.MoreBytes? ==> 2 <= r.used <= |b|
    ensures r.MoreBytes? ==> 1 <= r.needed <= 2
    ensures r.Valid? ==> IsInt64(r.length)
  {
    if |b| < MIN_BYTES_NEEDED then MoreBytes(MIN_BYTES_NEEDED - |b|)
    else
      var k := IndexOf(CR, b);
      if k == |b| then MoreBytes(2)
      else if k + 1 == |b| then MoreBytes(1)
      else if b[k + 1] != LF then Invalid(k + 2)
      else if k < 2 || b[0] != indicator then Invalid(k + 2)
      else match ParseInt64(b[1..k])
        case Some(n) => Valid(n, k + 2)
        case None => Invalid(k + 2)
  }

  /** The bulk strings of one request: all of them, a protocol error, or a wait. */
  datatype Items =
    | Strings(strs: seq<bytes>, used: nat)
    | Bad(error: RedisValue, used: nat)
    | Short(needed: nat)

  /** The outcome of a parse that goes on, `used` bytes later, with `strs` already read. */
  function After(strs: seq<bytes>, used: nat, rest: Items): Items {
    match rest
    case Strings(ss, u) => Strings(strs + ss, used + u)
    case Bad(e, u) => Bad(e, used + u)
    case Short(m) => rest
  }

  /** One bulk string: its length field, its bytes and its CRLF. */
  function ReadOne(b: bytes): (r: Items)
    ensures !r.Short? ==> 2 <= r.used <= |b|
    ensures r.Short? ==> r.needed >= 1
    ensures r.Strings? ==> |r.strs| == 1
    ensures r.Bad? ==> r.error.Error?
  {
    match ReadLength(DOLLAR, b)
    case MoreBytes(m) => Short(m)
    case Invalid(u) => Bad(InvalidBulkLength(), u)
    case Valid(length, u) =>
      if length < 0 then Bad(InvalidBulkLength(), u)
      else if |b| - u < length + 2 then Short(length + 2 - (|b| - u))
      else if b[u + length] != CR then Bad(ExpectCrLf(), u + length + 1)
      else if b[u + length + 1] != LF then Bad(ExpectCrLf(), u + length + 2)
      else Strings([b[u..u + length]], u + length + 2)
  }

  function ReadStrings(n: nat, b: bytes): (r: Items)
    ensures !r.Short? ==> r.used <= |b|
    ensures r.Short? ==> r.needed >= 1
    ensures r.Strings? ==> |r.strs| == n
    ensures r.Bad? ==> r.error.Error?
  {
    if n == 0 then Strings([], 0)
    else
      var item := ReadOne(b);
      if item.Strings? then After(item.strs, item.used, ReadStrings(n - 1, b[item.used..])) else item
  }

  datatype Step =
    | Emit(value: RedisValue, rest: bytes)
    | Wait(rest: bytes, needed: nat)

  /** The parse after the noise has been trimmed. */
  function DecodeTrimmed(b: bytes): (r: Step)
    ensures r.Wait? ==> r.rest == b && r.needed >= 1
    ensures r.Emit? ==> |r.rest| + 2 <= |b|
    ensures r.Emit? ==> r.value.Error? || (r.value.BulkStringArray? && |r.value.strs| > 0)
    ensures |b| < 2 ==> r == Wait(b, 2 - |b|)
  {
    match ReadLength(STAR, b)
    case MoreBytes(m) => Wait(b, m)
    case Invalid(u) => Emit(InvalidArrayLength(), b[u..])
    case Valid(n, u) =>
      if n <= 0 then Emit(InvalidArrayLength(), b[u..])
      else match ReadStrings(n, b[u..])
        case Strings(ss, v) => Emit(BulkStringArray(ss), b[u + v..])
        case Bad(e, v) => Emit(e, b[u + v..])
        case Short(m) => Wait(b, m)
  }

  /** RedisDecoder::decode on the buffered bytes. */
  function Decode(b: bytes): Step {
    if |b| < MIN_BYTES_NEEDED then Wait(b, MIN_BYTES_NEEDED - |b|)
    else
      var c := b[Noise(b)..];
      if c == [] then Wait(c, MIN_BYTES_NEEDED) else DecodeTrimmed(c)
  }

  // ----- noise

  /** Noise is the longest run of leading CRLF pairs. */
  lemma {:induction false} NoiseIsLongestRun(b: bytes)
    ensures Noise(b) % 2 == 0
    ensures forall i :: 0 <= i < Noise(b) ==> b[i] == (if i % 2 == 0 then CR else LF)
    ensures !StartsWithCrLf(b[Noise(b)..])
  {
    if StartsWithCrLf(b) {
      var c := b[2..];
      NoiseIsLongestRun(c);
      forall i | 0 <= i < Noise(b) ensures b[i] == (if i % 2 == 0 then CR else LF) {
        if i >= 2 {
          assert b[i] == c[i - 2];
        }
      }
      assert b[Noise(b)..] == c[Noise(c)..];
    }
  }

  lemma {:induction false} NoiseResumes(b: bytes, c: bytes)
    ensures Noise(b + c) == Noise(b) + Noise(b[Noise(b)..] + c)
  {
    if StartsWithCrLf(b) {
      assert (b + c)[2..] == b[2..] + c;
      assert b[Noise(b)..] == b[2..][Noise(b[2..])..];
      NoiseResumes(b[2..], c);
    } else {
      assert b[0..] == b;
    }
  }

  lemma {:induction false} NoiseSkipsPairs(pairs: nat, b: bytes)
    requires !StartsWithCrLf(b)
    ensures Noise(CrLfs(pairs) + b) == 2 * pairs
  {
    if pairs == 0 {
      assert [] + b == b;
    } else {
      assert (CrLfs(pairs) + b)[2..] == CrLfs(pairs - 1) + b;
      NoiseSkipsPairs(pairs - 1, b);
    }
  }

  function CrLfs(pairs: nat): (b: bytes)
    ensures |b| == 2 * pairs
  {
    if pairs == 0 then [] else CRLF + CrLfs(pairs - 1)
  }

  // ----- a decision, once taken, does not depend on later bytes

  lemma IndexOfPrefix(c: byte, b: bytes, more: bytes)
    requires IndexOf(c, b) < |b|
    ensures IndexOf(c, b + more) == IndexOf(c, b)
  {
    var k, m := IndexOf(c, b), IndexOf(c, b + more);
    assert (b + more)[k] == c;
    assert forall i :: 0 <= i < k ==> (b + more)[i] == b[i];
  }

  lemma ReadLengthStable(indicator: byte, b: bytes, more: bytes)
    requires !ReadLength(indicator, b).MoreBytes?
    ensures ReadLength(indicator, b + more) == ReadLength(indicator, b)
  {
    IndexOfPrefix(CR, b, more);
    var k := IndexOf(CR, b);
    if k >= 2 {
      assert (b + more)[1..k] == b[1..k];
    }
  }

  lemma ReadOneStable(b: bytes, more: bytes)
    requires !ReadOne(b).Short?
    ensures ReadOne(b + more) == ReadOne(b)
  {
    hide ReadLength;
    ReadLengthStable(DOLLAR, b, more);
    var field := ReadLength(DOLLAR, b);
    if field.Valid? && field.length >= 0 {
      var end := field.used + field.length;
      assert (b + more)[end] == b[end] && (b + more)[end + 1] == b[end + 1];
      assert (b + more)[field.used..end] == b[field.used..end];
    }
  }

  lemma {:induction false} ReadStringsStable(n: nat, b: bytes, more: bytes)
    requires !ReadStrings(n, b).Short?
    ensures ReadStrings(n, b + more) == ReadStrings(n, b)
  {
    hide ReadOne;
    if n > 0 {
      var item := ReadOne(b);
      ReadOneStable(b, more);
      if item.Strings? {
        assert (b + more)[item.used..] == b[item.used..] + more;
        ReadStringsStable(n - 1, b[item.used..], more);
      }
    }
  }

  lemma DecodeTrimmedStable(b: bytes, more: bytes)
    requires DecodeTrimmed(b).Emit?
    ensures DecodeTrimmed(b + more) == Emit(DecodeTrimmed(b).value, DecodeTrimmed(b).rest + more)
  {
    hide ReadLength, ReadStrings;
    ReadLengthStable(STAR, b, more);
    var u := ReadLength(STAR, b).used;
    assert (b + more)[u..] == b[u..] + more;
    if ReadLength(STAR, b).Valid? && ReadLength(STAR, b).length > 0 {
      var n := ReadLength(STAR, b).length;
      ReadStringsStable(n, b[u..], more);
      var v := ReadStrings(n, b[u..]).used;
      assert (b + more)[u + v..] == b[u + v..] + more;
    }
  }

  /** An emitted value stays the same whatever bytes follow. */
  lemma DecodeStable(b: bytes, more: bytes)
    requires Decode(b).Emit?
    ensures Decode(b + more) == Emit(Decode(b).value, Decode(b).rest + more)
  {
    hide DecodeTrimmed;
    var c := b[Noise(b)..];
    NoiseIsLongestRun(b);
    assert |c| >= 2;
    NoiseResumes(b, more);
    assert !StartsWithCrLf(c + more);
    assert (b + more)[Noise(b)..] == c + more;
    DecodeTrimmedStable(c, more);
  }

  /** The early returns of decode agree with the parse of the trimmed bytes. */
  lemma DecodeTrims(b: bytes)
    ensures Decode(b) == DecodeTrimmed(b[Noise(b)..])
  {
    hide DecodeTrimmed;
    if |b| < 2 {
      assert b[0..] == b;
    }
  }

  /** Waiting keeps every byte but the noise, and resuming from what was kept is the same as
      having had all the bytes at once. */
  lemma DecodeResumes(b: bytes, more: bytes)
    requires Decode(b).Wait?
    ensures Decode(b).rest == b[Noise(b)..]
    ensures Decode(b + more) == Decode(Decode(b).rest + more)
  {
    hide Decode, DecodeTrimmed, Noise;
    var c := b[Noise(b)..];
    DecodeTrims(b);
    DecodeTrims(b + more);
    DecodeTrims(c + more);
    NoiseResumes(b, more);
    assert (b + more)[Noise(b + more)..] == (c + more)[Noise(c + more)..];
  }

  /** What decode emits: a request with at least one string, or an error. */
  lemma DecodeEmits(b: bytes)
    requires Decode(b).Emit?
    ensures Decode(b).value.Error? ||
            (Decode(b).value.BulkStringArray? && |Decode(b).value.strs| > 0)
    ensures |Decode(b).rest| + 2 <= |b|
  {
  }

  // ----- `needed`

  lemma ReadLengthNeeds(indicator: byte, b: bytes, more: bytes)
    requires ReadLength(indicator, b).MoreBytes?
    requires |more| < ReadLength(indicator, b).needed
    ensures ReadLength(indicator, b + more).MoreBytes?
  {
    var k := IndexOf(CR, b + more);
    assert forall i :: 0 <= i < |b| ==> (b + more)[i] == b[i];
  }

  lemma ReadOneNeeds(b: bytes, more: bytes)
    requires ReadOne(b).Short? && |more| < ReadOne(b).needed
    ensures ReadOne(b + more).Short?
  {
    hide ReadLength;
    if ReadLength(DOLLAR, b).MoreBytes? {
      ReadLengthNeeds(DOLLAR, b, more);
    } else {
      ReadLengthStable(DOLLAR, b, more);
    }
  }

  lemma {:induction false} ReadStringsNeeds(n: nat, b: bytes, more: bytes)
    requires ReadStrings(n, b).Short? && |more| < ReadStrings(n, b).needed
    ensures ReadStrings(n, b + more).Short?
  {
    hide ReadOne;
    var item := ReadOne(b);
    if item.Short? {
      ReadOneNeeds(b, more);
    } else {
      ReadOneStable(b, more);
      assert (b + more)[item.used..] == b[item.used..] + more;
      ReadStringsNeeds(n - 1, b[item.used..], more);
    }
  }

  lemma DecodeTrimmedNeeds(c: bytes, more: bytes)
    requires DecodeTrimmed(c).Wait? && |more| < DecodeTrimmed(c).needed
    ensures DecodeTrimmed(c + more).Wait?
  {
    hide ReadLength, ReadStrings;
    var field := ReadLength(STAR, c);
    if field.MoreBytes? {
      ReadLengthNeeds(STAR, c, more);
    } else {
      ReadLengthStable(STAR, c, more);
      assert (c + more)[field.used..] == c[field.used..] + more;
      ReadStringsNeeds(field.length, c[field.used..], more);
    }
  }

  /** `needed` is at least one, and no extension by fewer bytes lets decode emit anything. */
  lemma NeededIsSound(b: bytes, more: bytes)
    requires Decode(b).Wait?
    ensures Decode(b).needed >= 1
    ensures |more| < Decode(b).needed ==> Decode(b + more).Wait?
  {
    hide Decode, DecodeTrimmed;
    var c := b[Noise(b)..];
    DecodeTrims(b);
    if |more| < Decode(b).needed {
      DecodeResumes(b, more);
      DecodeTrims(c + more);
      NoiseIsLongestRun(b);
      if |c| >= 2 {
        assert (c + more)[Noise(c + more)..] == c + more;
        DecodeTrimmedNeeds(c, more);
      }
    }
  }

  /** The decoder stands before a length field of which it has one byte, and that is not the CR
      that would end the field. It then asks for one byte although two are missing. */
  predicate LoneByte(b: bytes) {
    |b| == 1 && b[0] != CR
  }

  predicate LoneByteInStrings(n: nat, b: bytes) {
    n > 0 &&
    (LoneByte(b) ||
     (var item := ReadOne(b); item.Strings? && LoneByteInStrings(n - 1, b[item.used..])))
  }

  predicate LoneByteInRequest(b: bytes) {
    LoneByte(b) ||
    (var field := ReadLength(STAR, b);
     field.Valid? && field.length > 0 && LoneByteInStrings(field.length, b[field.used..]))
  }

  /** Bytes, as many as the length field needs, that end its parse; CR CR is never a line end. */
  lemma ReadLengthEnds(indicator: byte, b: bytes, more: bytes)
    requires ReadLength(indicator, b).MoreBytes? && |more| == ReadLength(indicator, b).needed
    ensures LoneByte(b) ==> ReadLength(indicator, b + more).MoreBytes?
    ensures !LoneByte(b) && (forall i :: 0 <= i < |more| ==> more[i] == CR) ==>
              ReadLength(indicator, b + more).Invalid?
  {
    var c := b + more;
    var k := IndexOf(CR, c);
    assert forall i :: 0 <= i < |b| ==> c[i] == b[i];
    assert forall i :: 0 <= i < |more| ==> c[|b| + i] == more[i];
    if !LoneByte(b) && (forall i :: 0 <= i < |more| ==> more[i] == CR) {
      assert c[|c| - 2] == CR && c[|c| - 1] == CR;
    }
  }

  lemma ReadOneEnds(b: bytes) returns (more: bytes)
    requires ReadOne(b).Short?
    ensures |more| == ReadOne(b).needed && LF !in more
    ensures !LoneByte(b) ==> ReadOne(b + more).Bad?
  {
    hide ReadLength;
    var field := ReadLength(DOLLAR, b);
    if field.MoreBytes? {
      more := seq(field.needed, _ => CR);
      ReadLengthEnds(DOLLAR, b, more);
    } else {
      more := seq(ReadOne(b).needed, _ => 0);
      ReadLengthStable(DOLLAR, b, more);
      assert (b + more)[|b + more| - 1] == 0;
    }
  }

  lemma {:induction false} ReadStringsEnds(n: nat, b: bytes) returns (more: bytes)
    requires ReadStrings(n, b).Short?
    ensures |more| == ReadStrings(n, b).needed && LF !in more
    ensures !LoneByteInStrings(n, b) ==> !ReadStrings(n, b + more).Short?
  {
    hide ReadOne;
    var item := ReadOne(b);
    if item.Short? {
      more := ReadOneEnds(b);
    } else {
      more := ReadStringsEnds(n - 1, b[item.used..]);
      ReadOneStable(b, more);
      assert (b + more)[item.used..] == b[item.used..] + more;
    }
  }

  lemma ReadOneStalls(b: bytes, more: bytes)
    requires LoneByte(b)
    ensures ReadOne(b) == Short(1)
    ensures |more| == 1 ==> ReadOne(b + more).Short?
  {
    if |more| == 1 {
      ReadLengthEnds(DOLLAR, b, more);
    }
  }

  lemma {:induction false} LoneByteStalls(n: nat, b: bytes, more: bytes)
    requires ReadStrings(n, b).Short? && LoneByteInStrings(n, b)
    requires |more| == ReadStrings(n, b).needed
    ensures ReadStrings(n, b + more).Short?
  {
    hide ReadOne;
    if LoneByte(b) {
      ReadOneStalls(b, more);
    } else {
      var item := ReadOne(b);
      ReadOneStable(b, more);
      assert (b + more)[item.used..] == b[item.used..] + more;
      LoneByteStalls(n - 1, b[item.used..], more);
    }
  }

  lemma RequestEnds(c: bytes) returns (more: bytes)
    requires DecodeTrimmed(c).Wait?
    ensures |more| == DecodeTrimmed(c).needed && LF !in more
    ensures !LoneByteInRequest(c) ==> DecodeTrimmed(c + more).Emit?
  {
    hide ReadLength, ReadStrings, LoneByteInStrings;
    var field := ReadLength(STAR, c);
    if field.MoreBytes? {
      more := seq(field.needed, _ => CR);
      ReadLengthEnds(STAR, c, more);
    } else {
      more := ReadStringsEnds(field.length, c[field.used..]);
      ReadLengthStable(STAR, c, more);
      assert (c + more)[field.used..] == c[field.used..] + more;
    }
  }

  lemma LoneByteStallsRequest(c: bytes, more: bytes)
    requires DecodeTrimmed(c).Wait? && LoneByteInRequest(c)
    requires |more| == DecodeTrimmed(c).needed
    ensures DecodeTrimmed(c + more).Wait?
  {
    hide ReadLength, ReadStrings, LoneByteInStrings;
    var field := ReadLength(STAR, c);
    if field.MoreBytes? {
      ReadLengthEnds(STAR, c, more);
    } else {
      ReadLengthStable(STAR, c, more);
      assert (c + more)[field.used..] == c[field.used..] + more;
      LoneByteStalls(field.length, c[field.used..], more);
    }
  }

  /** A wait resumed with bytes that do not extend the noise is decided by the trimmed parse. */
  lemma DecodeResumesTrimmed(b: bytes, more: bytes)
    requires Decode(b).Wait? && !StartsWithCrLf(b[Noise(b)..] + more)
    ensures Decode(b + more) == DecodeTrimmed(b[Noise(b)..] + more)
  {
    hide Decode, DecodeTrimmed;
    var c := b[Noise(b)..];
    DecodeResumes(b, more);
    DecodeTrims(c + more);
    assert (c + more)[0..] == c + more;
  }

  /** `needed` is the least number of bytes that can let decode emit, exactly when the decoder does
      not stand before a lone byte of a length field. */
  lemma NeededIsExact(b: bytes)
    requires Decode(b).Wait?
    ensures (exists more: bytes :: |more| == Decode(b).needed && Decode(b + more).Emit?)
            <==> !LoneByteInRequest(b[Noise(b)..])
  {
    hide Decode, DecodeTrimmed, LoneByteInRequest;
    var c := b[Noise(b)..];
    DecodeTrims(b);
    NoiseIsLongestRun(b);
    if LoneByteInRequest(c) {
      forall more: bytes | |more| == Decode(b).needed ensures Decode(b + more).Wait? {
        LoneByteStartsNoNoise(c, more);
        DecodeResumesTrimmed(b, more);
        LoneByteStallsRequest(c, more);
      }
    } else {
      var more := RequestEnds(c);
      assert !StartsWithCrLf(c + more);
      DecodeResumesTrimmed(b, more);
    }
  }

  lemma LoneByteStartsNoNoise(c: bytes, more: bytes)
    requires LoneByteInRequest(c) && !StartsWithCrLf(c)
    ensures !StartsWithCrLf(c + more)
  {
    hide LoneByteInStrings;
  }

  /** Such bytes: behind `*1` CR LF and a dollar sign the decoder asks for one byte, and whatever byte
      comes, it goes on waiting. */
  lemma OneByteIsNotEnough(x: byte)
    ensures var b := [STAR, 49, CR, LF, DOLLAR];
            Decode(b) == Wait(b, 1) && Decode(b + [x]).Wait?
  {
    var b, text := [STAR, 49, CR, LF, DOLLAR], [49];
    assert AllDigits(text) && Number(text) == 1 by { assert text[..0] == []; }
    ParseDigits(text);
    hide ParseInt64, Decode, ReadLength, DecodeTrimmed;
    ReadLengthOf(STAR, text, 1, [DOLLAR]);
    assert b == Field(STAR, text) + [DOLLAR] && b[4..] == [DOLLAR];
    LoneByteWaits(b, 1);
    assert b[0..] == b;
    LoneByteStallsRequest(b, [x]);
    assert (b + [x])[0] == STAR && (b + [x])[0..] == b + [x];
    NotNoise(b);
    NotNoise(b + [x]);
  }

  lemma LoneByteWaits(b: bytes, n: nat)
    requires n > 0 && |b| > 4 && ReadLength(STAR, b) == Valid(n, 4) && b[4..] == [DOLLAR]
    ensures DecodeTrimmed(b) == Wait(b, 1) && LoneByteInRequest(b)
  {
    assert ReadLength(DOLLAR, [DOLLAR]) == MoreBytes(1);
    assert ReadOne([DOLLAR]) == Short(1);
    assert ReadStrings(n, [DOLLAR]) == Short(1);
    hide ReadLength, ReadOne, ReadStrings;
  }

  lemma NotNoise(b: bytes)
    requires |b| >= MIN_BYTES_NEEDED && b[0] != CR
    ensures Decode(b) == DecodeTrimmed(b)
  {
    hide DecodeTrimmed;
    assert Noise(b) == 0 && b[0..] == b;
  }

  // ----- what is accepted

  /** The text of a length field that stands for n; leading zeros, a sign and white space are let
      through. */
  predicate LengthText(text: bytes, n: int) {
    CR !in text && ParseInt64(text) == Some(n)
  }

  function Field(indicator: byte, text: bytes): bytes {
    [indicator] + text + CRLF
  }

  /** A bulk string as it may be spelled. */
  datatype Bulk = Bulk(text: bytes, str: bytes)

  predicate WellSpelled(bulk: Bulk) {
    LengthText(bulk.text, |bulk.str|)
  }

  predicate AllWellSpelled(bulks: seq<Bulk>) {
    forall i :: 0 <= i < |bulks| ==> WellSpelled(bulks[i])
  }

  function BulkBytes(bulk: Bulk): bytes {
    Field(DOLLAR, bulk.text) + bulk.str + CRLF
  }

  function AllBulkBytes(bulks: seq<Bulk>): bytes {
    if bulks == [] then [] else BulkBytes(bulks[0]) + AllBulkBytes(bulks[1..])
  }

  function Strs(bulks: seq<Bulk>): (ss: seq<bytes>)
    ensures |ss| == |bulks|
  {
    if bulks == [] then [] else [bulks[0].str] + Strs(bulks[1..])
  }

  lemma LengthTextNonEmpty(text: bytes, n: int)
    requires LengthText(text, n)
    ensures text != []
  {
  }

  lemma ReadLengthOf(indicator: byte, text: bytes, n: int, rest: bytes)
    requires LengthText(text, n) && indicator != CR
    ensures ReadLength(indicator, Field(indicator, text) + rest) == Valid(n, |Field(indicator, text)|)
  {
    LengthTextNonEmpty(text, n);
    hide ParseInt64;
    var head := [indicator] + text;
    var b := Field(indicator, text) + rest;
    assert b == head + [CR] + ([LF] + rest);
    IndexOfFirst(CR, head, [LF] + rest);
    assert b[|head| + 1] == LF && b[1..|head|] == text;
  }

  lemma ReadOneOf(bulk: Bulk, tail: bytes)
    requires WellSpelled(bulk)
    ensures ReadOne(BulkBytes(bulk) + tail) == Strings([bulk.str], |BulkBytes(bulk)|)
  {
    hide ReadLength, Field;
    var line, s := Field(DOLLAR, bulk.text), bulk.str;
    var b := line + (s + CRLF + tail);
    assert BulkBytes(bulk) + tail == b;
    ReadLengthOf(DOLLAR, bulk.text, |s|, s + CRLF + tail);
    assert b[|line|..|line| + |s|] == s;
    assert b[|line| + |s|] == CR && b[|line| + |s| + 1] == LF;
  }

  lemma {:induction false} ReadStringsOf(bulks: seq<Bulk>, rest: bytes)
    requires AllWellSpelled(bulks)
    ensures ReadStrings(|bulks|, AllBulkBytes(bulks) + rest) == Strings(Strs(bulks), |AllBulkBytes(bulks)|)
  {
    hide ReadOne, BulkBytes, WellSpelled;
    if bulks != [] {
      var head, tail := BulkBytes(bulks[0]), AllBulkBytes(bulks[1..]) + rest;
      var b := AllBulkBytes(bulks) + rest;
      assert b == head + tail;
      ReadOneOf(bulks[0], tail);
      assert b[|head|..] == tail;
      ReadStringsOf(bulks[1..], rest);
    }
  }

  lemma Suffixes(a: bytes, b: bytes, c: bytes)
    ensures a + b + c == a + (b + c)
    ensures (a + (b + c))[|a|..] == b + c && (a + (b + c))[|a| + |b|..] == c
  {
  }

  lemma DecodeTrimmedOf(text: bytes, bulks: seq<Bulk>, rest: bytes)
    requires bulks != [] && LengthText(text, |bulks|) && AllWellSpelled(bulks)
    ensures DecodeTrimmed(Field(STAR, text) + AllBulkBytes(bulks) + rest) == Emit(BulkStringArray(Strs(bulks)), rest)
  {
    hide ReadLength, ReadStrings, Field, AllBulkBytes, AllWellSpelled, LengthText, Strs;
    var line, body := Field(STAR, text), AllBulkBytes(bulks);
    var c := line + (body + rest);
    Suffixes(line, body, rest);
    ReadLengthOf(STAR, text, |bulks|, body + rest);
    ReadStringsOf(bulks, rest);
    assert DecodeTrimmed(c) == Emit(BulkStringArray(Strs(bulks)), c[|line| + |body|..]);
  }

  /** Every spelling of a request with at least one string is accepted, after any noise and before
      any bytes. */
  lemma DecodeIsComplete(pairs: nat, text: bytes, bulks: seq<Bulk>, rest: bytes)
    requires bulks != [] && LengthText(text, |bulks|) && AllWellSpelled(bulks)
    ensures Decode(CrLfs(pairs) + (Field(STAR, text) + AllBulkBytes(bulks) + rest)) ==
            Emit(BulkStringArray(Strs(bulks)), rest)
  {
    hide Decode, DecodeTrimmed, AllBulkBytes, AllWellSpelled, LengthText;
    var c := Field(STAR, text) + AllBulkBytes(bulks) + rest;
    assert c[0] == STAR;
    NoiseSkipsPairs(pairs, c);
    var b := CrLfs(pairs) + c;
    assert b[2 * pairs..] == c;
    DecodeTrims(b);
    DecodeTrimmedOf(text, bulks, rest);
  }

  lemma FieldOf(indicator: byte, b: bytes) returns (text: bytes)
    requires ReadLength(indicator, b).Valid?
    ensures var r := ReadLength(indicator, b);
            LengthText(text, r.length) && b[..r.used] == Field(indicator, text)
  {
    hide ParseInt64;
    var k := IndexOf(CR, b);
    text := b[1..k];
    assert b[..k + 2] == Field(indicator, text);
  }

  lemma BulkOf(b: bytes) returns (bulk: Bulk)
    requires ReadOne(b).Strings?
    ensures WellSpelled(bulk) && ReadOne(b).strs == [bulk.str] && b[..ReadOne(b).used] == BulkBytes(bulk)
  {
    hide ReadLength, LengthText, Field;
    var field := ReadLength(DOLLAR, b);
    var text := FieldOf(DOLLAR, b);
    var end := field.used + field.length;
    bulk := Bulk(text, b[field.used..end]);
    assert b[..end + 2] == b[..field.used] + b[field.used..end] + [b[end], b[end + 1]];
  }

  lemma {:induction false} BulksOf(n: nat, b: bytes) returns (bulks: seq<Bulk>)
    requires ReadStrings(n, b).Strings?
    ensures |bulks| == n && AllWellSpelled(bulks)
    ensures ReadStrings(n, b).strs == Strs(bulks) && b[..ReadStrings(n, b).used] == AllBulkBytes(bulks)
  {
    hide ReadOne, BulkBytes, WellSpelled;
    if n == 0 {
      bulks := [];
    } else {
      var u := ReadOne(b).used;
      var bulk := BulkOf(b);
      var more := BulksOf(n - 1, b[u..]);
      bulks := [bulk] + more;
      assert bulks[1..] == more;
      var v := ReadStrings(n - 1, b[u..]).used;
      assert b[..u + v] == b[..u] + b[u..][..v];
    }
  }

  lemma {:induction false} NoiseIsPairs(b: bytes)
    ensures Noise(b) % 2 == 0 && b[..Noise(b)] == CrLfs(Noise(b) / 2)
  {
    if StartsWithCrLf(b) {
      NoiseIsPairs(b[2..]);
      assert b[..Noise(b)] == b[..2] + b[2..][..Noise(b[2..])];
      assert b[..2] == CRLF;
    }
  }

  /** Nothing else is accepted: the bytes taken by an emitted request are a spelling of it. With
      DecodeIsComplete, the accepted requests are exactly the spelled ones. */
  lemma DecodeIsSound(b: bytes) returns (pairs: nat, text: bytes, bulks: seq<Bulk>)
    requires Decode(b).Emit? && !Decode(b).value.Error?
    ensures bulks != [] && LengthText(text, |bulks|) && AllWellSpelled(bulks)
    ensures Decode(b).value == BulkStringArray(Strs(bulks))
    ensures b == CrLfs(pairs) + (Field(STAR, text) + AllBulkBytes(bulks) + Decode(b).rest)
  {
    hide Decode, Noise, ReadLength, ReadStrings, Field, AllBulkBytes, AllWellSpelled, LengthText, CrLfs, Strs;
    DecodeTrims(b);
    NoiseIsPairs(b);
    pairs := Noise(b) / 2;
    var c := b[Noise(b)..];
    var field := ReadLength(STAR, c);
    text := FieldOf(STAR, c);
    bulks := BulksOf(field.length, c[field.used..]);
    var v := ReadStrings(field.length, c[field.used..]).used;
    assert c == c[..field.used] + c[field.used..][..v] + c[field.used + v..];
    assert b == b[..Noise(b)] + c;
  }

  // ----- what is refused, and what is dropped with it

  /** The line `text` CR x is a length field of at least `least` behind the indicator. */
  predicate IsLengthLine(indicator: byte, least: int, text: bytes, x: byte) {
    x == 10 && text != [] && text[0] == indicator && ParseInt64(text[1..]).Some? &&
    ParseInt64(text[1..]).value >= least
  }

  /** Where a request goes wrong: in the line of the array length; behind some bulk strings, in the line
      of the next one's length; or behind the bytes of the next bulk string, where CR LF should stand. */
  datatype Fault =
    | BadArray(text: bytes, x: byte)
    | BadBulk(count: bytes, n: int, bulks: seq<Bulk>, text: bytes, x: byte)
    | BadEnd(count: bytes, n: int, bulks: seq<Bulk>, last: Bulk, end: bytes)

  predicate IsFault(f: Fault) {
    match f
    case BadArray(text, x) => 13 !in text && !(text == [] && x == 10) && !IsLengthLine(42, 1, text, x)
    case BadBulk(count, n, bulks, text, x) =>
      && LengthText(count, n) && AllWellSpelled(bulks) && |bulks| < n
      && 13 !in text && !IsLengthLine(36, 0, text, x)
    case BadEnd(count, n, bulks, last, end) =>
      && LengthText(count, n) && AllWellSpelled(bulks) && |bulks| < n && WellSpelled(last)
      && ((|end| == 1 && end[0] != 13) || (|end| == 2 && end[0] == 13 && end[1] != 10))
  }

  /** The bytes up to and including the one that is wrong. */
  function FaultBytes(f: Fault): bytes {
    match f
    case BadArray(text, x) => text + [13, x]
    case BadBulk(count, _, bulks, text, x) => [42] + count + [13, 10] + AllBulkBytes(bulks) + (text + [13, x])
    case BadEnd(count, _, bulks, last, end) =>
      [42] + count + [13, 10] + AllBulkBytes(bulks) + ([36] + last.text + [13, 10] + last.str + end)
  }

  function FaultText(f: Fault): string {
    match f
    case BadArray(_, _) => "Protocol Error: Invalid Array length"
    case BadBulk(_, _, _, _, _) => "Protocol Error: Invalid Bulk String length"
    case BadEnd(_, _, _, _, _) => "Protocol Error: Expect '\\r\\n'"
  }

  /** The end of a bulk string is looked at once two bytes are there. */
  predicate EnoughBytes(f: Fault, rest: bytes) {
    f.BadEnd? && |f.end| == 1 ==> rest != []
  }

  lemma ReadLengthLine(indicator: byte, text: bytes, x: byte, rest: bytes)
    requires 13 !in text
    ensures var r := ReadLength(indicator, text + [13, x] + rest);
            && !r.MoreBytes? && r.used == |text| + 2
            && (r.Valid? <==> x == 10 && text != [] && text[0] == indicator && ParseInt64(text[1..]).Some?)
            && (r.Valid? ==> r.length == ParseInt64(text[1..]).value)
  {
    hide ParseInt64;
    var b := text + [13, x] + rest;
    assert b == text + [CR] + ([x] + rest);
    IndexOfFirst(CR, text, [x] + rest);
    assert b[|text| + 1] == x;
    if text != [] {
      assert b[0] == text[0] && b[1..|text|] == text[1..];
    }
    if |text| < 2 {
      assert text == [] || text[1..] == [];
      NothingIsNoNumber();
    }
  }

  lemma NothingIsNoNumber()
    ensures ParseInt64([]).None?
  {
  }

  lemma {:induction false} ReadStringsBad(n: nat, bulks: seq<Bulk>, tail: bytes)
    requires AllWellSpelled(bulks) && |bulks| < n && ReadOne(tail).Bad?
    ensures ReadStrings(n, AllBulkBytes(bulks) + tail) ==
            Bad(ReadOne(tail).error, |AllBulkBytes(bulks)| + ReadOne(tail).used)
  {
    hide ReadOne, BulkBytes, WellSpelled;
    if bulks == [] {
      assert AllBulkBytes(bulks) + tail == tail;
    } else {
      var head, rest := BulkBytes(bulks[0]), AllBulkBytes(bulks[1..]) + tail;
      var b := AllBulkBytes(bulks) + tail;
      assert b == head + rest;
      ReadOneOf(bulks[0], rest);
      assert b[|head|..] == rest;
      ReadStringsBad(n - 1, bulks[1..], tail);
    }
  }

  lemma BadLineIsBad(text: bytes, x: byte, rest: bytes)
    requires 13 !in text && !IsLengthLine(36, 0, text, x)
    ensures ReadOne(text + [13, x] + rest) == Bad(InvalidBulkLength(), |text| + 2)
  {
    hide ReadLength, ParseInt64;
    ReadLengthLine(36, text, x, rest);
  }

  lemma BadEndIsBad(last: Bulk, end: bytes, rest: bytes)
    requires WellSpelled(last) && (|end| == 1 ==> rest != [])
    requires (|end| == 1 && end[0] != 13) || (|end| == 2 && end[0] == 13 && end[1] != 10)
    ensures var bytes := [36] + last.text + [13, 10] + last.str + end;
            ReadOne(bytes + rest) == Bad(ExpectCrLf(), |bytes|)
  {
    hide ReadLength, ParseInt64;
    var line, s := Field(DOLLAR, last.text), last.str;
    var b := [36] + last.text + [13, 10] + s + end + rest;
    assert b == line + (s + end + rest);
    ReadLengthOf(DOLLAR, last.text, |s|, s + end + rest);
    assert b[|line| + |s|] == end[0];
    assert |end| == 2 ==> b[|line| + |s| + 1] == end[1];
  }

  lemma DecodeTrimmedBad(count: bytes, n: int, bulks: seq<Bulk>, tail: bytes)
    requires LengthText(count, n) && AllWellSpelled(bulks) && |bulks| < n && ReadOne(tail).Bad?
    ensures DecodeTrimmed([42] + count + [13, 10] + AllBulkBytes(bulks) + tail) ==
            Emit(ReadOne(tail).error, tail[ReadOne(tail).used..])
  {
    hide ReadLength, ReadStrings, ReadOne, AllBulkBytes, AllWellSpelled, LengthText;
    var line, body := Field(STAR, count), AllBulkBytes(bulks);
    var c := line + (body + tail);
    Suffixes(line, body, tail);
    assert c == [42] + count + [13, 10] + body + tail;
    ReadLengthOf(STAR, count, n, body + tail);
    ReadStringsBad(n, bulks, tail);
    assert c[|line| + |body| + ReadOne(tail).used..] == tail[ReadOne(tail).used..];
  }

  lemma FaultStarts(f: Fault, rest: bytes)
    requires IsFault(f)
    ensures FaultBytes(f) != [] && !StartsWithCrLf(FaultBytes(f) + rest)
  {
    hide LengthText, AllWellSpelled, WellSpelled, AllBulkBytes, IsLengthLine;
    var b := FaultBytes(f) + rest;
    match f
    case BadArray(text, x) =>
      if text == [] {
        assert b[1] == x;
      } else {
        assert b[0] == text[0];
      }
    case _ =>
      assert b[0] == 42;
  }

  lemma FaultIsReported(f: Fault, rest: bytes)
    requires IsFault(f) && EnoughBytes(f, rest)
    ensures DecodeTrimmed(FaultBytes(f) + rest) == Emit(Error(Ascii(FaultText(f))), rest)
  {
    hide LengthText, AllWellSpelled, WellSpelled, AllBulkBytes, ReadLength, ReadOne, ReadStrings, DecodeTrimmed, Ascii;
    match f
    case BadArray(text, x) =>
      BadArrayIsBad(text, x, rest);
    case BadBulk(count, n, bulks, text, x) =>
      var tail := text + [13, x] + rest;
      BadLineIsBad(text, x, rest);
      DecodeTrimmedBad(count, n, bulks, tail);
      assert tail[|text| + 2..] == rest;
      assert FaultBytes(f) + rest == [42] + count + [13, 10] + AllBulkBytes(bulks) + tail;
    case BadEnd(count, n, bulks, last, end) =>
      var bytes := [36] + last.text + [13, 10] + last.str + end;
      BadEndIsBad(last, end, rest);
      DecodeTrimmedBad(count, n, bulks, bytes + rest);
      assert (bytes + rest)[|bytes|..] == rest;
      assert FaultBytes(f) + rest == [42] + count + [13, 10] + AllBulkBytes(bulks) + (bytes + rest);
  }

  lemma BadArrayIsBad(text: bytes, x: byte, rest: bytes)
    requires 13 !in text && !IsLengthLine(42, 1, text, x)
    ensures DecodeTrimmed(text + [13, x] + rest) == Emit(InvalidArrayLength(), rest)
  {
    hide ReadLength, ReadStrings, ParseInt64;
    ReadLengthLine(42, text, x, rest);
    assert (text + [13, x] + rest)[|text| + 2..] == rest;
  }

  /** Every fault is reported once, after any noise and before any bytes: the bytes up to it are dropped
      and exactly those behind it are left. */
  lemma FaultsAreReported(pairs: nat, f: Fault, rest: bytes)
    requires IsFault(f) && EnoughBytes(f, rest)
    ensures Decode(CrLfs(pairs) + (FaultBytes(f) + rest)) == Emit(Error(Ascii(FaultText(f))), rest)
  {
    hide IsFault, FaultBytes, DecodeTrimmed, Decode, Ascii;
    var c := FaultBytes(f) + rest;
    FaultStarts(f, rest);
    NoiseSkipsPairs(pairs, c);
    var b := CrLfs(pairs) + c;
    assert b[2 * pairs..] == c;
    DecodeTrims(b);
    FaultIsReported(f, rest);
  }

  lemma LineOf(indicator: byte, least: int, b: bytes) returns (text: bytes, x: byte)
    requires var r := ReadLength(indicator, b); r.Invalid? || (r.Valid? && r.length < least)
    ensures 13 !in text && !IsLengthLine(indicator, least, text, x)
    ensures b[..ReadLength(indicator, b).used] == text + [13, x]
  {
    hide ParseInt64;
    var k := IndexOf(CR, b);
    text, x := b[..k], b[k + 1];
    assert b[..k + 2] == text + [13, x];
    assert b == text + [13, x] + b[k + 2..];
    ReadLengthLine(indicator, text, x, b[k + 2..]);
  }

  /** How a parse of bulk strings goes wrong: some are well spelled and the next one is not. */
  lemma {:induction false} BadBulksOf(n: nat, b: bytes) returns (bulks: seq<Bulk>, tail: bytes)
    requires ReadStrings(n, b).Bad?
    ensures |bulks| < n && AllWellSpelled(bulks) && b == AllBulkBytes(bulks) + tail && ReadOne(tail).Bad?
    ensures ReadStrings(n, b) == Bad(ReadOne(tail).error, |AllBulkBytes(bulks)| + ReadOne(tail).used)
  {
    hide ReadOne, BulkBytes, WellSpelled;
    if ReadOne(b).Bad? {
      bulks, tail := [], b;
      assert b == AllBulkBytes([]) + b;
    } else {
      var u := ReadOne(b).used;
      var bulk := BulkOf(b);
      var more;
      more, tail := BadBulksOf(n - 1, b[u..]);
      bulks := [bulk] + more;
      assert bulks[1..] == more;
      assert b == b[..u] + b[u..];
      assert b == BulkBytes(bulk) + AllBulkBytes(more) + tail;
    }
  }

  lemma BadOneOf(b: bytes) returns (fault: Option<(Bulk, bytes)>, text: bytes, x: byte)
    requires ReadOne(b).Bad?
    ensures fault.None? ==>
              && 13 !in text && !IsLengthLine(36, 0, text, x) && ReadOne(b).error == InvalidBulkLength()
              && b[..ReadOne(b).used] == text + [13, x]
    ensures fault.Some? ==>
              var (last, end) := fault.value;
              && WellSpelled(last) && ReadOne(b).error == ExpectCrLf()
              && ((|end| == 1 && end[0] != 13) || (|end| == 2 && end[0] == 13 && end[1] != 10))
              && (|end| == 1 ==> ReadOne(b).used < |b|)
              && b[..ReadOne(b).used] == [36] + last.text + [13, 10] + last.str + end
  {
    hide ReadLength, LengthText, IsLengthLine, ParseInt64;
    var field := ReadLength(DOLLAR, b);
    if field.Invalid? || field.length < 0 {
      fault := None;
      text, x := LineOf(36, 0, b);
    } else {
      text := FieldOf(DOLLAR, b);
      x := 0;
      var stop := field.used + field.length;
      var end := b[stop..ReadOne(b).used];
      fault := Some((Bulk(text, b[field.used..stop]), end));
      assert end[0] == b[stop];
      assert b[..ReadOne(b).used] == b[..field.used] + b[field.used..stop] + end;
    }
  }

  /** Conversely, every error decode emits is such a fault. With FaultsAreReported, DecodeIsComplete and
      DecodeIsSound this says of all bytes what decode takes from them. */
  lemma ErrorsAreFaults(b: bytes) returns (pairs: nat, f: Fault)
    requires Decode(b).Emit? && Decode(b).value.Error?
    ensures IsFault(f) && EnoughBytes(f, Decode(b).rest)
    ensures Decode(b).value == Error(Ascii(FaultText(f)))
    ensures b == CrLfs(pairs) + (FaultBytes(f) + Decode(b).rest)
  {
    hide Decode, Noise, CrLfs, IsFault, FaultBytes, FaultText, Ascii;
    DecodeTrims(b);
    NoiseIsPairs(b);
    NoiseIsLongestRun(b);
    pairs := Noise(b) / 2;
    var c := b[Noise(b)..];
    assert b == b[..Noise(b)] + c;
    f := FaultOf(c);
  }

  lemma FaultOf(c: bytes) returns (f: Fault)
    requires DecodeTrimmed(c).Emit? && DecodeTrimmed(c).value.Error? && !StartsWithCrLf(c)
    ensures IsFault(f) && EnoughBytes(f, DecodeTrimmed(c).rest)
    ensures DecodeTrimmed(c).value == Error(Ascii(FaultText(f)))
    ensures c == FaultBytes(f) + DecodeTrimmed(c).rest
  {
    hide ReadLength, ReadStrings, LengthText, AllWellSpelled, WellSpelled, AllBulkBytes, ReadOne, IsLengthLine, Ascii;
    var field := ReadLength(STAR, c);
    if field.Invalid? || field.length <= 0 {
      var text, x := LineOf(42, 1, c);
      f := BadArray(text, x);
      assert c == c[..field.used] + c[field.used..];
      assert text == [] ==> c[0] == 13 && c[1] == x;
    } else {
      f := FaultInBulks(c, field.length, field.used);
    }
  }

  lemma FaultInBulks(c: bytes, n: nat, used: nat) returns (f: Fault)
    requires ReadLength(STAR, c) == Valid(n, used) && used <= |c| && ReadStrings(n, c[used..]).Bad?
    ensures var bad := ReadStrings(n, c[used..]);
            && IsFault(f) && EnoughBytes(f, c[used + bad.used..])
            && bad.error == Error(Ascii(FaultText(f))) && c == FaultBytes(f) + c[used + bad.used..]
  {
    hide ReadLength, ReadStrings, LengthText, AllWellSpelled, WellSpelled, AllBulkBytes, ReadOne, IsLengthLine, Ascii;
    var count := FieldOf(STAR, c);
    var bulks, tail := BadBulksOf(n, c[used..]);
    var fault, text, x := BadOneOf(tail);
    var v := ReadOne(tail).used;
    Assembled(c, used, AllBulkBytes(bulks), tail, v);
    if fault.None? {
      f := BadBulk(count, n, bulks, text, x);
    } else {
      f := BadEnd(count, n, bulks, fault.value.0, fault.value.1);
    }
  }

  lemma Assembled(c: bytes, used: nat, body: bytes, tail: bytes, v: nat)
    requires used <= |c| && c[used..] == body + tail && v <= |tail|
    ensures used + |body| + v <= |c| && c == c[..used] + body + tail[..v] + c[used + |body| + v..]
    ensures c[used + |body| + v..] == tail[v..]
  {
    assert c == c[..used] + (body + tail);
    assert tail == tail[..v] + tail[v..];
    assert c[used + |body| + v..] == (body + tail)[|body| + v..] == tail[v..];
  }

  /** The bytes of a spelling, written out. */
  lemma SpellingBytes(pairs: nat, text: bytes, bulk: Bulk)
    ensures CrLfs(0) == [] && CrLfs(pairs + 1) == [13, 10] + CrLfs(pairs)
    ensures Field(STAR, text) == [42] + text + [13, 10]
    ensures BulkBytes(bulk) == [36] + bulk.text + [13, 10] + bulk.str + [13, 10]
  {
  }

  // ----- round trip with the encoder

  predicate SizesFit(ss: seq<bytes>) {
    |ss| <= INT64_MAX && forall i :: 0 <= i < |ss| ==> |ss[i]| <= INT64_MAX
  }

  function Canonical(ss: seq<bytes>): seq<Bulk> {
    if ss == [] then [] else [Bulk(Print(|ss[0]|), ss[0])] + Canonical(ss[1..])
  }

  lemma PrintedLength(n: int)
    requires IsInt64(n)
    ensures LengthText(Print(n), n)
  {
    PrintIsLine(n);
    ParsePrint(n);
  }

  lemma {:induction false} CanonicalSpelling(ss: seq<bytes>)
    requires SizesFit(ss)
    ensures |Canonical(ss)| == |ss| && AllWellSpelled(Canonical(ss))
    ensures Strs(Canonical(ss)) == ss && AllBulkBytes(Canonical(ss)) == EncodeStrings(ss)
  {
    hide LengthText, Print;
    if ss != [] {
      PrintedLength(|ss[0]|);
      CanonicalSpelling(ss[1..]);
      assert Canonical(ss)[1..] == Canonical(ss[1..]);
      assert [ss[0]] + ss[1..] == ss;
    }
  }

  /** Decoding an encoded request, after any noise and before any bytes, gives the request back
      and leaves exactly those bytes. */
  lemma RoundTrip(pairs: nat, ss: seq<bytes>, rest: bytes)
    requires ss != [] && SizesFit(ss)
    ensures Decode(CrLfs(pairs) + Encode(BulkStringArray(ss)) + rest) == Emit(BulkStringArray(ss), rest)
  {
    hide Decode, LengthText, AllWellSpelled, AllBulkBytes, EncodeStrings, Strs, Canonical, Print, CrLfs;
    PrintedLength(|ss|);
    CanonicalSpelling(ss);
    var c := Field(STAR, Print(|ss|)) + AllBulkBytes(Canonical(ss)) + rest;
    assert c == Encode(BulkStringArray(ss)) + rest;
    assert CrLfs(pairs) + Encode(BulkStringArray(ss)) + rest == CrLfs(pairs) + c;
    DecodeIsComplete(pairs, Print(|ss|), Canonical(ss), rest);
  }

  lemma {:induction false} SpelledSizesFit(bulks: seq<Bulk>)
    requires AllWellSpelled(bulks)
    ensures forall i :: 0 <= i < |bulks| ==> |Strs(bulks)[i]| <= INT64_MAX
  {
    hide ParseInt64;
    if bulks != [] {
      assert WellSpelled(bulks[0]);
      SpelledSizesFit(bulks[1..]);
      assert Strs(bulks)[1..] == Strs(bulks[1..]);
    }
  }

  /** Every decoded request survives being encoded and decoded again. */
  lemma DecodedRequestRoundTrips(b: bytes, rest: bytes)
    requires Decode(b).Emit? && !Decode(b).value.Error?
    ensures Encodable(Decode(b).value)
    ensures Decode(Encode(Decode(b).value) + rest) == Emit(Decode(b).value, rest)
  {
    hide Decode, Encode, Strs, AllBulkBytes, Field;
    var pairs, text, bulks := DecodeIsSound(b);
    var ss := Strs(bulks);
    SpelledSizesFit(bulks);
    assert SizesFit(ss);
    RoundTrip(0, ss, rest);
    assert CrLfs(0) + Encode(BulkStringArray(ss)) + rest == Encode(BulkStringArray(ss)) + rest;
  }
}
