/**
 Scheduled tasks and their keys (infra/ScheduledTask). A task is stored under its timestamp, as
 eight big-endian bytes, followed by its data key, so that the byte order of keys is the order of
 (timestamp, data key).
 */
module TaskKeys {
  import opened Bytes

  // ----- byte order

  /** The order of a rocksdb iterator: lexicographic, a proper prefix first. */
  predicate Less(a: bytes, b: bytes) {
    b != [] && (a == [] || a[0] < b[0] || (a[0] == b[0] && Less(a[1..], b[1..])))
  }

  lemma {:induction false} LessTotal(a: bytes, b: bytes)
    ensures a == b || Less(a, b) || Less(b, a)
  {
    if a != [] && b != [] && a[0] == b[0] {
      LessTotal(a[1..], b[1..]);
      assert a == [a[0]] + a[1..] && b == [b[0]] + b[1..];
    }
  }

  lemma {:induction false} LessIrreflexive(a: bytes)
    ensures !Less(a, a)
  {
    if a != [] {
      LessIrreflexive(a[1..]);
    }
  }

  lemma {:induction false} LessTransitive(a: bytes, b: bytes, c: bytes)
    requires Less(a, b) && Less(b, c)
    ensures Less(a, c)
  {
    if a != [] && a[0] == b[0] && b[0] == c[0] {
      LessTransitive(a[1..], b[1..], c[1..]);
    }
  }

  /** Behind prefixes of one length, the order is that of the prefixes, then that of the rest. */
  lemma {:induction false} LessAppend(a: bytes, b: bytes, s: bytes, t: bytes)
    requires |a| == |b|
    ensures Less(a + s, b + t) <==> Less(a, b) || (a == b && Less(s, t))
  {
    if a == [] {
      assert a + s == s && b + t == t;
    } else {
      assert (a + s)[1..] == a[1..] + s && (b + t)[1..] == b[1..] + t;
      assert a == [a[0]] + a[1..] && b == [b[0]] + b[1..];
      LessAppend(a[1..], b[1..], s, t);
    }
  }

  // ----- big-endian numbers

  function Pow256(width: nat): nat {
    if width == 0 then 1 else 256 * Pow256(width - 1)
  }

  function BigEndian(n: nat, width: nat): (b: bytes)
    ensures |b| == width
  {
    if width == 0 then [] else BigEndian(n / 256, width - 1) + [n % 256]
  }

  function Load(b: bytes): nat {
    if b == [] then 0 else 256 * Load(b[..|b| - 1]) + b[|b| - 1]
  }

  /** load_big_endian<int64_t, 8>: the top bit is the sign. */
  function LoadInt64(b: bytes): int {
    if Load(b) > INT64_MAX then Load(b) - Pow256(8) else Load(b)
  }

  lemma {:induction false} LoadBigEndian(n: nat, width: nat)
    requires n < Pow256(width)
    ensures Load(BigEndian(n, width)) == n
  {
    if width > 0 {
      var b := BigEndian(n, width);
      assert b[..|b| - 1] == BigEndian(n / 256, width - 1);
      LoadBigEndian(n / 256, width - 1);
    }
  }

  lemma {:induction false} BigEndianLoad(b: bytes)
    ensures Load(b) < Pow256(|b|) && BigEndian(Load(b), |b|) == b
  {
    if b != [] {
      var init, last := b[..|b| - 1], b[|b| - 1];
      BigEndianLoad(init);
      assert Load(b) / 256 == Load(init) && Load(b) % 256 == last;
      assert init + [last] == b;
    }
  }

  lemma OrderByDigit(n: nat, m: nat)
    ensures n < m <==> n / 256 < m / 256 || (n / 256 == m / 256 && n % 256 < m % 256)
  {
  }

  lemma LessByte(x: byte, y: byte)
    ensures Less([x], [y]) <==> x < y
  {
    assert [x][1..] == [] && [y][1..] == [];
  }

  lemma {:induction false} BigEndianOrder(n: nat, m: nat, width: nat)
    requires n < Pow256(width) && m < Pow256(width)
    ensures Less(BigEndian(n, width), BigEndian(m, width)) <==> n < m
  {
    if width > 0 {
      BigEndianOrder(n / 256, m / 256, width - 1);
      LoadBigEndian(n / 256, width - 1);
      LoadBigEndian(m / 256, width - 1);
      OrderByDigit(n, m);
      hide Less;
      LessAppend(BigEndian(n / 256, width - 1), BigEndian(m / 256, width - 1), [n % 256], [m % 256]);
      LessByte(n % 256, m % 256);
    }
  }

  lemma Pow256Of8()
    ensures Pow256(8) == 0x1_0000_0000_0000_0000
  {
    assert Pow256(4) == 0x1_0000_0000;
  }

  // ----- tasks

  datatype ScheduledTask = ScheduledTask(timestamp: int, dataKey: bytes, value: bytes)

  /** What the constructor checks, with the width of its arguments. */
  predicate ValidTask(t: ScheduledTask) {
    0 <= t.timestamp <= INT64_MAX && t.dataKey != []
  }

  const TIMESTAMP_SIZE: nat := 8

  function EncodeTimestamp(ms: int): bytes
    requires 0 <= ms <= INT64_MAX
  {
    BigEndian(ms, TIMESTAMP_SIZE)
  }

  function Key(t: ScheduledTask): bytes
    requires ValidTask(t)
  {
    EncodeTimestamp(t.timestamp) + t.dataKey
  }

  predicate IsTaskKey(k: bytes) {
    |k| > TIMESTAMP_SIZE && Load(k[..TIMESTAMP_SIZE]) <= INT64_MAX
  }

  function Timestamp(k: bytes): int
    requires IsTaskKey(k)
  {
    LoadInt64(k[..TIMESTAMP_SIZE])
  }

  /** The task scanPendingTasks builds from a stored pair. */
  function TaskOf(k: bytes, value: bytes): (t: ScheduledTask)
    requires IsTaskKey(k)
  {
    ScheduledTask(Timestamp(k), k[TIMESTAMP_SIZE..], value)
  }

  /** The order tasks are due in. */
  predicate Before(a: ScheduledTask, b: ScheduledTask) {
    a.timestamp < b.timestamp || (a.timestamp == b.timestamp && Less(a.dataKey, b.dataKey))
  }

  /** Keys decode to the task they were made of. */
  lemma TaskOfKey(t: ScheduledTask)
    requires ValidTask(t)
    ensures IsTaskKey(Key(t)) && TaskOf(Key(t), t.value) == t
  {
    Pow256Of8();
    var k := Key(t);
    assert k[..TIMESTAMP_SIZE] == EncodeTimestamp(t.timestamp) && k[TIMESTAMP_SIZE..] == t.dataKey;
    LoadBigEndian(t.timestamp, TIMESTAMP_SIZE);
  }

  /** A key is eight bytes that spell the timestamp to base 256, and then the data key. */
  lemma KeyLayout(t: ScheduledTask)
    requires ValidTask(t)
    ensures |Key(t)| == 8 + |t.dataKey| && Load(Key(t)[..8]) == t.timestamp && Key(t)[8..] == t.dataKey
  {
    Pow256Of8();
    LoadBigEndian(t.timestamp, 8);
    assert Key(t)[..8] == EncodeTimestamp(t.timestamp);
  }

  /** Every task key is the key of the task it decodes to. */
  lemma KeyOfTask(k: bytes, value: bytes)
    requires IsTaskKey(k)
    ensures ValidTask(TaskOf(k, value)) && Key(TaskOf(k, value)) == k
  {
    BigEndianLoad(k[..TIMESTAMP_SIZE]);
    assert k[..TIMESTAMP_SIZE] + k[TIMESTAMP_SIZE..] == k;
  }

  /** The byte order of keys is the order of tasks. */
  lemma KeyOrder(a: ScheduledTask, b: ScheduledTask)
    requires ValidTask(a) && ValidTask(b)
    ensures Less(Key(a), Key(b)) <==> Before(a, b)
  {
    Pow256Of8();
    BigEndianOrder(a.timestamp, b.timestamp, TIMESTAMP_SIZE);
    LoadBigEndian(a.timestamp, TIMESTAMP_SIZE);
    LoadBigEndian(b.timestamp, TIMESTAMP_SIZE);
    LessAppend(EncodeTimestamp(a.timestamp), EncodeTimestamp(b.timestamp), a.dataKey, b.dataKey);
  }

  /** A bare timestamp is an exclusive bound: below it are the tasks due strictly before it. */
  lemma BoundIsExclusive(t: ScheduledTask, max: int)
    requires ValidTask(t) && 0 <= max <= INT64_MAX
    ensures Less(Key(t), EncodeTimestamp(max)) <==> t.timestamp < max
  {
    Pow256Of8();
    BigEndianOrder(t.timestamp, max, TIMESTAMP_SIZE);
    LessAppend(EncodeTimestamp(t.timestamp), EncodeTimestamp(max), t.dataKey, []);
    assert EncodeTimestamp(max) + [] == EncodeTimestamp(max);
  }
}
