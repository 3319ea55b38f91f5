/**
 Smyte ids (infra/SmyteId): sign 1 bit, time 40 bits, unique 10 bits, machine 13 bits.
 */
module SmyteIds {
  import opened Bytes
  import opened TaskKeys

  const TIMESTAMP_RANGE: int := 0x100_0000_0000
  const EPOCH: int := 1262304000000
  const UNIQUE_SIZE: int := 1024
  const MACHINE_SIZE: int := 8192
  const MACHINE_BASE: int := MACHINE_SIZE - 1024
  const VIRTUAL_SHARD_COUNT: int := 1024

  /** The `%` of C++: it truncates toward zero. */
  function Rem(a: int, b: int): int
    requires b > 0
  {
    if a >= 0 then a % b else -((-a) % b)
  }

  /** generateFromKafka; None where a CHECK fails. A left shift is a multiplication. */
  function Generate(kafkaOffset: int, timestampMs: int, shard: int): Option<int> {
    var shifted := timestampMs - EPOCH;
    if !(0 <= shifted < TIMESTAMP_RANGE) || !(0 <= shard < VIRTUAL_SHARD_COUNT) then None
    else Some((shifted * UNIQUE_SIZE + Rem(kafkaOffset, UNIQUE_SIZE)) * MACHINE_SIZE + (MACHINE_BASE + shard))
  }

  /** An arithmetic right shift rounds down, as does division here. */
  function IdTimestamp(id: int): int {
    id / (UNIQUE_SIZE * MACHINE_SIZE) + EPOCH
  }

  function Machine(id: int): int {
    id % MACHINE_SIZE
  }

  function Unique(id: int): int {
    id / MACHINE_SIZE % UNIQUE_SIZE
  }

  function VirtualShard(id: int): int {
    var machine := Rem(id, MACHINE_SIZE);
    if machine < MACHINE_BASE then -1 else Rem(machine, VIRTUAL_SHARD_COUNT)
  }

  /** The bits of an id: milliseconds since 2010 above bit 23, the offset mod 1024 above bit 13, and the
      shard behind 7168; an id exists exactly for times of 40 bits and shards of 10. */
  lemma IdLayout(offset: nat, ms: int, shard: int)
    ensures Generate(offset, ms, shard).Some? <==>
            1262304000000 <= ms < 1262304000000 + 0x100_0000_0000 && 0 <= shard < 1024
    ensures Generate(offset, ms, shard).Some? ==>
              Generate(offset, ms, shard).value ==
              (ms - 1262304000000) * 8388608 + offset % 1024 * 8192 + 7168 + shard
  {
  }

  /** An id holds its fields: for every offset but the negative ones that leave a remainder, time,
      unique part, machine and shard are read back. */
  lemma FieldsAreRecovered(offset: int, ms: int, shard: int)
    requires Generate(offset, ms, shard).Some? && Rem(offset, UNIQUE_SIZE) >= 0
    ensures var id := Generate(offset, ms, shard).value;
            && 0 <= id <= INT64_MAX
            && IdTimestamp(id) == ms && Unique(id) == Rem(offset, UNIQUE_SIZE)
            && Machine(id) == MACHINE_BASE + shard && VirtualShard(id) == shard
  {
  }

  /** getVirtualShard on any number: the last ten bits behind one of the last 1024 machine numbers, and -1
      for everything else. */
  lemma ShardOfId(id: int)
    ensures VirtualShard(id) == if id >= 0 && id % 8192 >= 7168 then id % 1024 else -1
  {
  }

  /** The timestamp is recovered exactly when the offset is not negative or is a multiple of 1024:
      the remainder of any other offset is negative and borrows from the time. */
  lemma TimestampIsRecovered(offset: int, ms: int, shard: int)
    requires Generate(offset, ms, shard).Some?
    ensures IdTimestamp(Generate(offset, ms, shard).value) == ms <==> offset >= 0 || offset % UNIQUE_SIZE == 0
  {
  }

  /** Such an offset: -1 puts every id one millisecond early. */
  lemma NegativeOffsetBorrows(ms: int, shard: int)
    requires Generate(0, ms, shard).Some?
    ensures Generate(-1, ms, shard).Some? && IdTimestamp(Generate(-1, ms, shard).value) == ms - 1
  {
  }

  /** Ids sort by time, then by offset mod 1024, then by shard. */
  lemma IdOrder(o1: nat, t1: int, s1: int, o2: nat, t2: int, s2: int)
    requires Generate(o1, t1, s1).Some? && Generate(o2, t2, s2).Some?
    ensures Generate(o1, t1, s1).value < Generate(o2, t2, s2).value <==>
            t1 < t2 || (t1 == t2 && (o1 % UNIQUE_SIZE < o2 % UNIQUE_SIZE ||
                                     (o1 % UNIQUE_SIZE == o2 % UNIQUE_SIZE && s1 < s2)))
  {
  }

  /** Any 1024 consecutive offsets of a shard get distinct ids, whatever their timestamps. */
  lemma NearbyOffsetsDiffer(o1: nat, t1: int, o2: nat, t2: int, shard: int)
    requires Generate(o1, t1, shard).Some? && Generate(o2, t2, shard).Some?
    requires o1 < o2 < o1 + UNIQUE_SIZE
    ensures Generate(o1, t1, shard) != Generate(o2, t2, shard)
  {
  }

  /** asBinary: eight big-endian bytes. */
  function AsBinary(id: int): bytes
    requires 0 <= id <= INT64_MAX
  {
    BigEndian(id, 8)
  }

  /** The binary form is read back and sorts like the number. */
  lemma BinaryForm(a: int, b: int)
    requires 0 <= a <= INT64_MAX && 0 <= b <= INT64_MAX
    ensures |AsBinary(a)| == 8 && LoadInt64(AsBinary(a)) == a
    ensures Less(AsBinary(a), AsBinary(b)) <==> a < b
  {
    Pow256Of8();
    LoadBigEndian(a, 8);
    BigEndianOrder(a, b, 8);
  }
}
