/**
 Committed offsets of a kafka-store consumer (infra/kafka/ConsumerHelper): their text form, and the
 write that commits them together with other data.
 */
module ConsumerHelpers {
  import opened Bytes
  import opened Decimal
  import opened Databases
  import opened KeyEscapes

  const INT64_MAX_DIGITS: nat := 20
  const SEPARATOR: byte := 58
  const OFFSET_INVALID: int := -1001
  const METADATA_CF: string := "smyte-metadata"

  /** "{:020d}:{:020d}" */
  function EncodeOffsets(kafkaOffset: nat, fileOffset: nat): bytes {
    Padded(kafkaOffset, INT64_MAX_DIGITS) + [SEPARATOR] + Padded(fileOffset, INT64_MAX_DIGITS)
  }

  /** The byte between the two numbers is not looked at. */
  function DecodeOffsets(value: bytes): Option<(int, int)> {
    if |value| != INT64_MAX_DIGITS * 2 + 1 then None
    else
      var k := ParseInt64(value[..INT64_MAX_DIGITS]);
      var f := ParseInt64(value[INT64_MAX_DIGITS + 1..]);
      if k.Some? && f.Some? then Some((k.value, f.value)) else None
  }

  function Pow10(width: nat): nat {
    if width == 0 then 1 else 10 * Pow10(width - 1)
  }

  lemma {:induction false} DigitsLength(n: nat, width: nat)
    requires width > 0 && n < Pow10(width)
    ensures |Digits(n)| <= width
  {
    if n >= 10 {
      assert width > 1 by {
        assert Pow10(1) == 10 * Pow10(0) == 10;
      }
      DigitsLength(n / 10, width - 1);
    }
  }

  lemma Int64Digits(n: nat)
    requires n <= INT64_MAX
    ensures |Digits(n)| <= 19
  {
    assert Pow10(19) == 10000000000000000000 by {
      assert Pow10(5) == 100000;
      assert Pow10(10) == 10000000000;
      assert Pow10(15) == 1000000000000000;
    }
    DigitsLength(n, 19);
  }

  lemma {:induction false} NumberOfPadded(zeros: nat, s: bytes)
    requires AllDigits(s)
    ensures AllDigits(Zeros(zeros) + s) && Number(Zeros(zeros) + s) == Number(s)
  {
    var padded := Zeros(zeros) + s;
    if s == [] {
      assert padded == Zeros(zeros);
      NumberOfZeros(zeros);
    } else {
      assert padded[..|padded| - 1] == Zeros(zeros) + s[..|s| - 1];
      NumberOfPadded(zeros, s[..|s| - 1]);
    }
  }

  lemma {:induction false} NumberOfZeros(zeros: nat)
    ensures Number(Zeros(zeros)) == 0
  {
    if zeros > 0 {
      assert Zeros(zeros)[..zeros - 1] == Zeros(zeros - 1);
      NumberOfZeros(zeros - 1);
    }
  }

  lemma ParsePadded(n: nat, width: nat)
    requires n <= INT64_MAX && width >= 19
    ensures |Padded(n, width)| == width && ParseInt64(Padded(n, width)) == Some(n)
  {
    hide ParseInt64, Number;
    Int64Digits(n);
    NumberOfDigits(n);
    NumberOfPadded(width - |Digits(n)|, Digits(n));
    ParseDigits(Padded(n, width));
  }

  /** Committed offsets are read back, on the whole range the encoder accepts. */
  lemma OffsetsRoundTrip(kafkaOffset: nat, fileOffset: nat)
    requires kafkaOffset <= INT64_MAX && fileOffset <= INT64_MAX
    ensures DecodeOffsets(EncodeOffsets(kafkaOffset, fileOffset)) == Some((kafkaOffset, fileOffset))
  {
    hide ParseInt64, Padded;
    ParsePadded(kafkaOffset, INT64_MAX_DIGITS);
    ParsePadded(fileOffset, INT64_MAX_DIGITS);
    var k, f := Padded(kafkaOffset, INT64_MAX_DIGITS), Padded(fileOffset, INT64_MAX_DIGITS);
    var value := EncodeOffsets(kafkaOffset, fileOffset);
    assert value[..INT64_MAX_DIGITS] == k && value[INT64_MAX_DIGITS + 1..] == f;
  }

  /** The text: twenty digits, a colon, twenty digits. */
  lemma OffsetsText(kafkaOffset: nat, fileOffset: nat)
    requires kafkaOffset <= INT64_MAX && fileOffset <= INT64_MAX
    ensures var text := EncodeOffsets(kafkaOffset, fileOffset);
            && |text| == 41 && text[20] == 58
            && AllDigits(text[..20]) && Number(text[..20]) == kafkaOffset
            && AllDigits(text[21..]) && Number(text[21..]) == fileOffset
  {
    hide Number, Digits;
    PaddedText(kafkaOffset);
    PaddedText(fileOffset);
    var text := EncodeOffsets(kafkaOffset, fileOffset);
    assert text[..20] == Padded(kafkaOffset, 20) && text[21..] == Padded(fileOffset, 20);
  }

  lemma PaddedText(n: nat)
    requires n <= INT64_MAX
    ensures |Padded(n, 20)| == 20 && AllDigits(Padded(n, 20)) && Number(Padded(n, 20)) == n
  {
    hide Number;
    Int64Digits(n);
    NumberOfDigits(n);
    NumberOfPadded(20 - |Digits(n)|, Digits(n));
  }

  /** A text of another length, or without a number on either side, holds no offsets. */
  lemma MalformedOffsets(value: bytes)
    requires |value| == 41 ==> ParseInt64(value[..20]).None? || ParseInt64(value[21..]).None?
    ensures DecodeOffsets(value).None?
  {
  }

  function OffsetDbKey(offsetKey: bytes): DbKey {
    DbKey(METADATA_CF, offsetKey)
  }

  function StoredOffsets(db: Db, offsetKey: bytes): Option<(int, int)> {
    var k := OffsetDbKey(offsetKey);
    if k in db then DecodeOffsets(db[k]) else None
  }

  /** The database after the data and the offsets were written in one batch. */
  function Committed(db: Db, offsetKey: bytes, kafkaOffset: nat, fileOffset: nat, batch: WriteBatch): Db {
    Apply(db, batch + [Put(OffsetDbKey(offsetKey), EncodeOffsets(kafkaOffset, fileOffset))])
  }

  // ----- offset keys

  /** getOffsetKey: "~kafka-offset~{topic}~{partition}~{suffix}" */
  function OffsetKey(topic: bytes, partition: int, suffix: bytes): bytes {
    Ascii("~kafka-offset~") + (topic + [TILDE] + (Print(partition) + [TILDE] + suffix))
  }

  lemma PrintHasNoTilde(n: int)
    ensures TILDE !in Print(n)
  {
    var digits := Digits(if n >= 0 then n else -n);
    forall i | 0 <= i < |digits| ensures IsDigit(digits[i]) {
      NumberOfDigits(if n >= 0 then n else -n);
      DigitAt(digits, i);
    }
  }

  /** The range of the int that holds a partition. */
  predicate IsPartition(p: int) {
    -0x8000_0000 <= p <= 0x7fff_ffff
  }

  /** The text is how some partition is printed. */
  predicate IsPartitionText(s: bytes) {
    var p := ParseInt64(s);
    p.Some? && IsPartition(p.value) && Print(p.value) == s
  }

  /** The bytes up to the first tilde. */
  function FirstPart(s: bytes): bytes {
    s[..IndexOf(TILDE, s)]
  }

  /** u goes on after t with a tilde and a partition, and then ends or has another tilde. */
  predicate ExtendsTopic(t: bytes, u: bytes) {
    t + [TILDE] <= u && IsPartitionText(FirstPart(u[|t| + 1..]))
  }

  lemma FirstPartOf(a: bytes, rest: bytes)
    requires TILDE !in a && (rest == [] || rest[0] == TILDE)
    ensures FirstPart(a + rest) == a
  {
    var s, i := a + rest, IndexOf(TILDE, a + rest);
    assert forall j :: 0 <= j < |a| ==> s[j] == a[j];
    assert rest != [] ==> s[|a|] == TILDE;
    assert s[..|a|] == a;
  }

  /** Two topics between the same bytes: they are the same, or one extends the other. */
  lemma ShorterTopicIsExtended(t: bytes, p: int, s: bytes, u: bytes, rest: bytes)
    requires IsPartition(p) && |t| < |u|
    requires t + [TILDE] + (Print(p) + [TILDE] + s) == u + [TILDE] + rest
    ensures ExtendsTopic(t, u)
  {
    hide Print, ParseInt64;
    var all, v := u + [TILDE] + rest, u[|t| + 1..];
    assert all[..|u|] == u && all[..|t| + 1] == t + [TILDE];
    assert u[..|t| + 1] == t + [TILDE];
    var tail := Print(p) + [TILDE] + s;
    assert all[|t| + 1..] == tail == v + ([TILDE] + rest);
    PrintHasNoTilde(p);
    assert tail == Print(p) + ([TILDE] + s);
    FirstPartOf(Print(p), [TILDE] + s);
    FirstPartOfLonger(v, [TILDE] + rest);
    ParsePrint(p);
  }

  lemma FirstPartOfLonger(v: bytes, rest: bytes)
    requires rest != [] && rest[0] == TILDE
    ensures FirstPart(v + rest) == FirstPart(v)
  {
    var i, j := IndexOf(TILDE, v), IndexOf(TILDE, v + rest);
    assert (v + rest)[|v|] == TILDE;
    assert i < |v| ==> (v + rest)[i] == TILDE;
    assert j < |v| ==> v[j] == TILDE;
    assert (v + rest)[..i] == v[..i];
  }

  /** Links that share a key, for a topic and one that extends it. */
  lemma ExtensionCollides(t: bytes, u: bytes) returns (p: int, s: bytes)
    requires ExtendsTopic(t, u)
    ensures IsPartition(p) && OffsetKey(t, p, s) == OffsetKey(u, 0, [])
  {
    hide Print, ParseInt64;
    var v := u[|t| + 1..];
    var first := FirstPart(v);
    var i := |first|;
    p := ParseInt64(first).value;
    var end := [TILDE] + (Print(0) + [TILDE] + []);
    assert u == t + [TILDE] + v;
    if i == |v| {
      s := Print(0) + [TILDE] + [];
      assert v == first;
      assert u + end == t + [TILDE] + (first + end);
    } else {
      s := v[i + 1..] + end;
      assert v == first + [TILDE] + v[i + 1..];
      assert u + end == t + [TILDE] + (first + [TILDE] + s);
    }
    assert u + end == u + [TILDE] + (Print(0) + [TILDE] + []);
    assert t + [TILDE] + (first + [TILDE] + s) == u + end;
  }

  ghost predicate MayCollide(t: bytes, u: bytes) {
    exists p: int, s: bytes, q: int, r: bytes ::
      IsPartition(p) && IsPartition(q) && OffsetKey(t, p, s) == OffsetKey(u, q, r)
  }

  /** Two different topics can get the same offset key, for some partitions and suffixes, exactly when
      one extends the other. */
  lemma TopicsCollide(t: bytes, u: bytes)
    requires t != u
    ensures MayCollide(t, u) <==> ExtendsTopic(t, u) || ExtendsTopic(u, t)
  {
    hide OffsetKey, ExtendsTopic;
    if MayCollide(t, u) {
      var p, s, q, r :|
        IsPartition(p) && IsPartition(q) && OffsetKey(t, p, s) == OffsetKey(u, q, r);
      SharedKeyExtends(t, p, s, u, q, r);
    }
    if ExtendsTopic(t, u) {
      var p, s := ExtensionCollides(t, u);
    } else if ExtendsTopic(u, t) {
      var p, s := ExtensionCollides(u, t);
    }
  }

  lemma AfterPrefix(t: bytes, p: int, s: bytes)
    ensures OffsetKey(t, p, s)[|Ascii("~kafka-offset~")|..] == t + [TILDE] + (Print(p) + [TILDE] + s)
  {
    hide Print;
  }

  lemma SharedKeyExtends(t: bytes, p: int, s: bytes, u: bytes, q: int, r: bytes)
    requires IsPartition(p) && IsPartition(q) && OffsetKey(t, p, s) == OffsetKey(u, q, r)
    ensures t == u || ExtendsTopic(t, u) || ExtendsTopic(u, t)
  {
    hide Print, ExtendsTopic, OffsetKey;
    AfterPrefix(t, p, s);
    AfterPrefix(u, q, r);
    var rest1, rest2 := Print(p) + [TILDE] + s, Print(q) + [TILDE] + r;
    if |t| < |u| {
      ShorterTopicIsExtended(t, p, s, u, rest2);
    } else if |u| < |t| {
      ShorterTopicIsExtended(u, q, r, t, rest1);
    } else {
      var all := t + [TILDE] + rest1;
      assert t == all[..|t|] && u == all[..|t|];
    }
  }

  /** One topic never gets the same key for different partitions or suffixes. */
  lemma TopicKeysDiffer(t: bytes, p: int, s: bytes, q: int, r: bytes)
    requires IsPartition(p) && IsPartition(q)
    ensures OffsetKey(t, p, s) == OffsetKey(t, q, r) <==> p == q && s == r
  {
    hide Print, ParseInt64;
    if OffsetKey(t, p, s) == OffsetKey(t, q, r) {
      var head := |Ascii("~kafka-offset~") + t + [TILDE]|;
      assert OffsetKey(t, p, s)[head..] == Print(p) + [TILDE] + s;
      assert OffsetKey(t, q, r)[head..] == Print(q) + [TILDE] + r;
      PrintHasNoTilde(p);
      PrintHasNoTilde(q);
      CutAtSeparator(Print(p), Print(q), s, r);
      ParsePrint(p);
      ParsePrint(q);
    }
  }

  /** Two links get the same offset key only when they are the same link, unless one topic extends the
      other; in particular when no topic has a tilde in its name. */
  lemma OffsetKeysDiffer(t: bytes, p: int, s: bytes, u: bytes, q: int, r: bytes)
    requires IsPartition(p) && IsPartition(q)
    ensures !ExtendsTopic(t, u) && !ExtendsTopic(u, t) ==>
              (OffsetKey(t, p, s) == OffsetKey(u, q, r) <==> t == u && p == q && s == r)
    ensures TILDE !in u ==> !ExtendsTopic(t, u)
  {
    hide OffsetKey, IsPartitionText;
    if OffsetKey(t, p, s) == OffsetKey(u, q, r) && !ExtendsTopic(t, u) && !ExtendsTopic(u, t) {
      SharedKeyExtends(t, p, s, u, q, r);
      TopicKeysDiffer(t, p, s, q, r);
    }
    if ExtendsTopic(t, u) {
      assert u[|t|] == (t + [TILDE])[|t|] == TILDE;
    }
  }

  /** Such topics: with t, the topic that goes on with ~1. */
  lemma TildeInTopicCollides(t: bytes, suffix: bytes)
    ensures OffsetKey(t + [TILDE] + Print(1), 2, suffix) == OffsetKey(t, 1, Print(2) + [TILDE] + suffix)
  {
    hide Print;
    var tail := Print(2) + [TILDE] + suffix;
    assert t + [TILDE] + Print(1) + [TILDE] + tail == t + [TILDE] + (Print(1) + [TILDE] + tail);
  }

  class ConsumerHelper {
    const db: Database<DbKey>
    var topicPartitions: map<bytes, (bytes, int)>
    var lastCommittedOffsets: map<bytes, int>

    constructor (db: Database<DbKey>)
      ensures this.db == db && topicPartitions == map[] && lastCommittedOffsets == map[]
    {
      this.db := db;
      topicPartitions, lastCommittedOffsets := map[], map[];
    }

    /** None when a key is linked twice, which a CHECK forbids. */
    method LinkTopicPartition(topic: bytes, partition: int, suffix: bytes) returns (offsetKey: Option<bytes>)
      modifies this
      ensures offsetKey == if OffsetKey(topic, partition, suffix) in old(topicPartitions) then None
                           else Some(OffsetKey(topic, partition, suffix))
      ensures offsetKey.Some? ==>
                offsetKey.value == Ascii("~kafka-offset~") + topic + [126] + Print(partition) + [126] + suffix
      ensures offsetKey.None? ==> topicPartitions == old(topicPartitions)
      ensures offsetKey.None? ==> lastCommittedOffsets == old(lastCommittedOffsets)
      ensures offsetKey.Some? ==> topicPartitions == old(topicPartitions)[offsetKey.value := (topic, partition)]
      ensures offsetKey.Some? ==>
                lastCommittedOffsets == old(lastCommittedOffsets)[offsetKey.value := -1001]
    {
      var key := OffsetKey(topic, partition, suffix);
      if key in topicPartitions {
        return None;
      }
      topicPartitions := topicPartitions[key := (topic, partition)];
      lastCommittedOffsets := lastCommittedOffsets[key := OFFSET_INVALID];
      return Some(key);
    }

    /** The data in the batch and the offsets are written together or not at all, and the cached
        offset follows the database. */
    method CommitNextProcessKafkaAndFileOffsets(offsetKey: bytes, kafkaOffset: nat, fileOffset: nat,
                                                batch: WriteBatch, writeOk: bool)
      returns (ok: bool)
      requires offsetKey in lastCommittedOffsets
      modifies this, db
      ensures ok == writeOk
      ensures db.contents == if ok then Committed(old(db.contents), offsetKey, kafkaOffset, fileOffset, batch)
                             else old(db.contents)
      ensures lastCommittedOffsets ==
              if ok then old(lastCommittedOffsets)[offsetKey := kafkaOffset] else old(lastCommittedOffsets)
    {
      db.Write(batch + [Put(OffsetDbKey(offsetKey), EncodeOffsets(kafkaOffset, fileOffset))], writeOk);
      if !writeOk {
        return false;
      }
      lastCommittedOffsets := lastCommittedOffsets[offsetKey := kafkaOffset];
      return true;
    }

    method LoadCommittedKafkaAndFileOffsets(offsetKey: bytes) returns (offsets: Option<(int, int)>)
      requires offsetKey in lastCommittedOffsets
      modifies this
      ensures offsets == StoredOffsets(db.contents, offsetKey)
      ensures lastCommittedOffsets ==
              old(lastCommittedOffsets)[offsetKey := if offsets.Some? then offsets.value.0 else -1001]
    {
      var key := OffsetDbKey(offsetKey);
      offsets := None;
      if key in db.contents {
        offsets := DecodeOffsets(db.contents[key]);
        if offsets.Some? {
          lastCommittedOffsets := lastCommittedOffsets[offsetKey := offsets.value.0];
          return;
        }
      }
      lastCommittedOffsets := lastCommittedOffsets[offsetKey := OFFSET_INVALID];
    }
  }

  /** What was committed is what the next load finds, and the other keys hold the batch. */
  lemma CommitThenLoad(db: Db, offsetKey: bytes, kafkaOffset: nat, fileOffset: nat, batch: WriteBatch)
    requires kafkaOffset <= INT64_MAX && fileOffset <= INT64_MAX
    requires !Touches(batch, OffsetDbKey(offsetKey))
    ensures var after := Committed(db, offsetKey, kafkaOffset, fileOffset, batch);
            && StoredOffsets(after, offsetKey) == Some((kafkaOffset, fileOffset))
            && after - {OffsetDbKey(offsetKey)} == Apply(db - {OffsetDbKey(offsetKey)}, batch)
  {
    hide DecodeOffsets, EncodeOffsets;
    OffsetsRoundTrip(kafkaOffset, fileOffset);
    var key := OffsetDbKey(offsetKey);
    var full := batch + [Put(key, EncodeOffsets(kafkaOffset, fileOffset))];
    assert full[..|full| - 1] == batch;
    UntouchedKey(db, batch, key);
    var after := Committed(db, offsetKey, kafkaOffset, fileOffset, batch);
    assert after == Apply(db, batch)[key := EncodeOffsets(kafkaOffset, fileOffset)];
    assert after - {key} == Apply(db, batch) - {key};
  }
}
