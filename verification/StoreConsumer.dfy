/**
 The kafka-store consumer (infra/kafka/store/Consumer): it reads an offset-indexed log that is kept
 as a growing row of files, and commits its position in one write batch with the data it derived.

 A download may fail at any time. A failed CHECK, like any other crash, loses the consumer and its
 unwritten batch; the operation is then None.
 */
module StoreConsumers {
  import opened Bytes
  import opened Databases
  import opened ConsumerHelpers

  type Message = bytes

  /** An object of the bucket: its records, and the count its metadata claims. */
  datatype File = File(count: int, records: seq<Message>)
  type Bucket = map<int, File>

  // ----- the consumer on values

  /** `reader` holds the records of the current file that are still unread. */
  datatype Consumer = Consumer(currentFileOffset: int, nextFileOffset: int, nextKafkaOffset: int,
                               reader: Option<seq<Message>>)

  /** downloadFile: with retries it ends when the object is there or the consumer is stopped. An
      object without a positive count is no object. */
  function Download(bucket: Bucket, offset: int, works: bool): Option<File> {
    if works && offset in bucket && bucket[offset].count > 0 then Some(bucket[offset]) else None
  }

  /** The second half of init: open the file and seek to the offset. */
  function OpenAt(offset: int, fileOffset: int, bucket: Bucket, works: bool): Option<Consumer>
    requires fileOffset <= offset
  {
    match Download(bucket, fileOffset, works)
    case Some(file) =>
      if fileOffset + file.count <= offset || |file.records| < offset - fileOffset then None
      else Some(Consumer(fileOffset, fileOffset + file.count, offset, Some(file.records[offset - fileOffset..])))
    case None =>
      // without a reader there is nothing to seek in
      if offset != fileOffset then None else Some(Consumer(fileOffset, fileOffset, offset, None))
  }

  /** init; `initial` None is OFFSET_STORED. */
  function Init(stored: Option<(int, int)>, initial: Option<int>, bucket: Bucket, works: bool): Option<Consumer> {
    if stored.None? then None
    else
      var (committed, fileOffset) := stored.value;
      var offset := if initial.Some? then initial.value else committed;
      if (initial.Some? && offset < 0) || fileOffset < 0 || offset < fileOffset then None
      else OpenAt(offset, fileOffset, bucket, works)
  }

  const MAX_BATCH_SIZE: nat := 10000

  /** consumeBatch; `budget` is how many records the time allows. The result is the consumer and
      the records handed to processOne. */
  function Consume(c: Consumer, bucket: Bucket, works: bool, budget: nat): Option<(Consumer, seq<Message>)> {
    if c.reader.Some? then ReadRecords(c, budget)
    else if c.nextKafkaOffset != c.nextFileOffset then None
    else
      match Download(bucket, c.nextFileOffset, works)
      case None => Some((c, []))
      case Some(file) => ReadRecords(NextFile(c, file), budget)
  }

  function NextFile(c: Consumer, file: File): Consumer {
    Consumer(c.nextFileOffset, c.nextFileOffset + file.count, c.nextKafkaOffset, Some(file.records))
  }

  function Min(a: int, b: int): int {
    if a < b then a else b
  }

  /** Records are read until the budget, the batch size or the count of the file is used up. A file
      with fewer records than its metadata claims is fatal. */
  function ReadRecords(c: Consumer, budget: nat): Option<(Consumer, seq<Message>)>
    requires c.reader.Some?
  {
    var left := c.nextFileOffset - c.nextKafkaOffset;
    var n := Min(Min(budget, MAX_BATCH_SIZE), left);
    if n < 0 || |c.reader.value| < n then None
    else
      var rest := if n == left then None else Some(c.reader.value[n..]);
      Some((c.(nextKafkaOffset := c.nextKafkaOffset + n, reader := rest), c.reader.value[..n]))
  }

  /** The file offset to commit: the current file, or the next one at the end of a file. */
  function FileOffsetToCommit(c: Consumer): int {
    if c.nextKafkaOffset == c.nextFileOffset then c.nextFileOffset else c.currentFileOffset
  }

  // ----- the consumer as the source runs it

  class StoreConsumer {
    var currentFileOffset: int
    var nextFileOffset: int
    var nextKafkaOffset: int
    var currentDataReader: Option<seq<Message>>

    constructor ()
      ensures View() == Consumer(0, 0, 0, None)
    {
      currentFileOffset, nextFileOffset, nextKafkaOffset, currentDataReader := 0, 0, 0, None;
    }

    function View(): Consumer
      reads this
    {
      Consumer(currentFileOffset, nextFileOffset, nextKafkaOffset, currentDataReader)
    }

    method Initialize(helper: ConsumerHelper, offsetKey: bytes, initial: Option<int>, bucket: Bucket, works: bool)
      returns (ok: bool)
      requires offsetKey in helper.lastCommittedOffsets
      modifies this, helper
      ensures match Init(StoredOffsets(helper.db.contents, offsetKey), initial, bucket, works)
              case None => !ok
              case Some(c) => ok && View() == c
    {
      hide DecodeOffsets;
      if initial.Some? && initial.value < 0 {
        return false;
      }
      var stored := helper.LoadCommittedKafkaAndFileOffsets(offsetKey);
      if stored.None? {
        return false;
      }
      var (committed, initialFileOffset) := stored.value;
      var initialOffset := if initial.Some? then initial.value else committed;
      if initialFileOffset < 0 || initialOffset < initialFileOffset {
        return false;
      }
      ok := Open(initialOffset, initialFileOffset, bucket, works);
    }

    /** The loop that passes over the records before the offset; without a reader there are none. */
    method Seek(fileOffset: int, offset: int) returns (ok: bool)
      requires fileOffset < offset
      modifies this`currentDataReader
      ensures ok <==> old(currentDataReader).Some? && |old(currentDataReader).value| >= offset - fileOffset
      ensures ok ==> currentDataReader == Some(old(currentDataReader).value[offset - fileOffset..])
    {
      ghost var reader := currentDataReader;
      var currentOffset := fileOffset;
      while currentOffset < offset
        invariant fileOffset <= currentOffset <= offset
        invariant reader.None? ==> currentDataReader.None? && currentOffset == fileOffset
        invariant reader.Some? ==>
                    && currentOffset - fileOffset <= |reader.value|
                    && currentDataReader == Some(reader.value[currentOffset - fileOffset..])
      {
        if currentDataReader.None? || currentDataReader.value == [] {
          return false;
        }
        currentDataReader := Some(currentDataReader.value[1..]);
        currentOffset := currentOffset + 1;
      }
      return true;
    }

    /** Download the file and seek to the offset, record by record. */
    method Open(initialOffset: int, initialFileOffset: int, bucket: Bucket, works: bool) returns (ok: bool)
      requires 0 <= initialFileOffset <= initialOffset
      modifies this
      ensures match OpenAt(initialOffset, initialFileOffset, bucket, works)
              case None => !ok
              case Some(c) => ok && View() == c
    {
      var download := Download(bucket, initialFileOffset, works);
      var recordCount := 0;
      currentDataReader := None;
      if download.Some? {
        recordCount := download.value.count;
        if initialFileOffset + recordCount <= initialOffset {
          return false;
        }
        currentDataReader := Some(download.value.records);
      }
      currentFileOffset := initialFileOffset;
      nextFileOffset := currentFileOffset + recordCount;
      if initialOffset != initialFileOffset {
        ok := Seek(initialFileOffset, initialOffset);
        if !ok {
          return false;
        }
      }
      nextKafkaOffset := initialOffset;
      return true;
    }

    /** False is a CHECK or a fatal log line; the process is gone and its fields do not matter. */
    method ConsumeBatch(bucket: Bucket, works: bool, budget: nat) returns (ok: bool, processed: seq<Message>)
      requires currentDataReader.Some? ==> nextKafkaOffset < nextFileOffset
      modifies this
      ensures match Consume(old(View()), bucket, works, budget)
              case None => !ok
              case Some((c, msgs)) => ok && View() == c && processed == msgs
    {
      hide ReadRecords;
      processed := [];
      if currentDataReader.None? {
        if nextKafkaOffset != nextFileOffset {
          return false, [];
        }
        var download := Download(bucket, nextFileOffset, works);
        if download.None? {
          return true, [];
        }
        currentDataReader := Some(download.value.records);
        currentFileOffset := nextFileOffset;
        nextFileOffset := nextFileOffset + download.value.count;
      }
      ok, processed := ReadLoop(budget);
    }

    /** The loop of consumeBatch: it stops on time, on the batch size, or with the file. */
    method ReadLoop(budget: nat) returns (ok: bool, processed: seq<Message>)
      requires currentDataReader.Some? && nextKafkaOffset < nextFileOffset
      modifies this
      ensures match ReadRecords(old(View()), budget)
              case None => !ok
              case Some((c, msgs)) => ok && View() == c && processed == msgs
    {
      ghost var all, left := currentDataReader.value, nextFileOffset - nextKafkaOffset;
      processed := [];
      while |processed| < MAX_BATCH_SIZE && |processed| < budget
        invariant |processed| <= Min(budget, MAX_BATCH_SIZE) && |processed| < left && |processed| <= |all|
        invariant processed == all[..|processed|] && currentDataReader == Some(all[|processed|..])
        invariant nextKafkaOffset == old(nextKafkaOffset) + |processed|
        invariant currentFileOffset == old(currentFileOffset) && nextFileOffset == old(nextFileOffset)
        decreases budget - |processed|
      {
        if currentDataReader.value == [] {
          return false, processed;
        }
        ghost var n := |processed|;
        assert all[n..][0] == all[n] && all[n..][1..] == all[n + 1..] && all[..n] + [all[n]] == all[..n + 1];
        processed := processed + [currentDataReader.value[0]];
        currentDataReader := Some(currentDataReader.value[1..]);
        nextKafkaOffset := nextKafkaOffset + 1;
        if nextKafkaOffset >= nextFileOffset {
          currentDataReader := None;
          return true, processed;
        }
      }
      ok := true;
    }
  }

  // ----- a bucket that holds a log

  /** The log as a row of files; each is stored under the offset of its first record. */
  type Files = seq<seq<Message>>

  predicate NonEmptyFiles(files: Files) {
    forall i :: 0 <= i < |files| ==> files[i] != []
  }

  function Log(files: Files): seq<Message> {
    if files == [] then [] else files[0] + Log(files[1..])
  }

  /** The file that starts at an offset. */
  function FileAt(files: Files, offset: int): Option<seq<Message>> {
    if files == [] || offset < 0 then None
    else if offset == 0 then Some(files[0])
    else if offset < |files[0]| then None
    else FileAt(files[1..], offset - |files[0]|)
  }

  function BucketOf(files: Files): Bucket {
    map o | 0 <= o < |Log(files)| && FileAt(files, o).Some? :: File(|FileAt(files, o).value|, FileAt(files, o).value)
  }

  lemma DownloadFrom(files: Files, offset: int, works: bool)
    requires NonEmptyFiles(files)
    ensures var file := FileAt(files, offset);
            Download(BucketOf(files), offset, works) ==
            if works && file.Some? then Some(File(|file.value|, file.value)) else None
  {
    if FileAt(files, offset).Some? {
      FileInLog(files, offset);
    }
  }

  lemma {:induction false} LogSnoc(files: Files, file: seq<Message>)
    ensures Log(files + [file]) == Log(files) + file
  {
    if files == [] {
      assert files + [file] == [file];
      assert Log([file]) == file + Log([]);
    } else {
      assert (files + [file])[1..] == files[1..] + [file];
      LogSnoc(files[1..], file);
    }
  }

  /** An offset where a file starts, or will start. */
  predicate Boundary(files: Files, offset: int) {
    FileAt(files, offset).Some? || offset == |Log(files)|
  }

  lemma {:induction false} FileInLog(files: Files, offset: int)
    requires NonEmptyFiles(files) && FileAt(files, offset).Some?
    ensures var file := FileAt(files, offset).value;
            && file != [] && 0 <= offset && offset + |file| <= |Log(files)|
            && Log(files)[offset..offset + |file|] == file
            && Boundary(files, offset + |file|)
  {
    var head, tail := files[0], files[1..];
    if offset == 0 {
      assert Log(files)[..|head|] == head;
      if tail == [] {
        assert Log(files) == head + [] == head;
      } else {
        assert FileAt(tail, 0) == Some(tail[0]);
        assert FileAt(files, |head|) == FileAt(tail, 0);
      }
    } else {
      FileInLog(tail, offset - |head|);
      var file := FileAt(files, offset).value;
      assert Log(files)[offset..offset + |file|] == Log(tail)[offset - |head|..offset - |head| + |file|];
      assert FileAt(files, offset + |file|) == FileAt(tail, offset + |file| - |head|);
    }
  }

  lemma {:induction false} FileAtSnoc(files: Files, file: seq<Message>, offset: int)
    requires NonEmptyFiles(files)
    ensures FileAt(files + [file], offset) ==
            if FileAt(files, offset).Some? then FileAt(files, offset)
            else if offset == |Log(files)| then Some(file) else None
  {
    var more := files + [file];
    if files == [] {
      assert more == [file] && more[1..] == [];
    } else {
      assert more[0] == files[0] && more[1..] == files[1..] + [file];
      if offset >= |files[0]| {
        FileAtSnoc(files[1..], file, offset - |files[0]|);
      }
    }
  }

  // ----- runs

  /** The database operations processOne adds to the batch for the record at an offset. It may look at
      the database and at what is in the batch already. */
  type Process = (Db, WriteBatch, int, Message) -> WriteBatch

  /** The batch with the operations of the records from one offset to another added. */
  function OpsFor(process: Process, db: Db, batch: WriteBatch, log: seq<Message>, from: nat, to: nat): WriteBatch
    requires to <= |log|
  {
    if to <= from then batch
    else
      var before := OpsFor(process, db, batch, log, from, to - 1);
      before + process(db, before, to - 1, log[to - 1])
  }

  lemma {:induction false} OpsAppend(process: Process, db: Db, batch: WriteBatch, log: seq<Message>,
                                     a: nat, b: nat, c: nat)
    requires a <= b <= c <= |log|
    ensures OpsFor(process, db, batch, log, a, c) ==
            OpsFor(process, db, OpsFor(process, db, batch, log, a, b), log, b, c)
  {
    if c > b {
      OpsAppend(process, db, batch, log, a, b, c - 1);
    }
  }

  lemma {:induction false} OpsGrow(process: Process, db: Db, batch: WriteBatch, log: seq<Message>,
                                   more: seq<Message>, a: nat, b: nat)
    requires b <= |log|
    ensures OpsFor(process, db, batch, log + more, a, b) == OpsFor(process, db, batch, log, a, b)
  {
    if a < b {
      OpsGrow(process, db, batch, log, more, a, b - 1);
    }
  }

  ghost predicate Spares(process: Process, k: DbKey) {
    forall db: Db, batch: WriteBatch, offset: int, msg: Message :: !Touches(process(db, batch, offset, msg), k)
  }

  lemma {:induction false} OpsSpare(process: Process, db: Db, batch: WriteBatch, log: seq<Message>,
                                    a: nat, b: nat, k: DbKey)
    requires b <= |log| && Spares(process, k) && !Touches(batch, k)
    ensures !Touches(OpsFor(process, db, batch, log, a, b), k)
  {
    hide Touches;
    if a < b {
      OpsSpare(process, db, batch, log, a, b - 1, k);
      var before := OpsFor(process, db, batch, log, a, b - 1);
      TouchesAppend(before, process(db, before, b - 1, log[b - 1]), k);
    }
  }

  /** The batch with the operations of the records handed over by one call added. */
  function BatchOps(process: Process, db: Db, batch: WriteBatch, from: nat, msgs: seq<Message>): WriteBatch {
    if msgs == [] then batch
    else
      var before := BatchOps(process, db, batch, from, msgs[..|msgs| - 1]);
      before + process(db, before, from + |msgs| - 1, msgs[|msgs| - 1])
  }

  lemma {:induction false} BatchOpsInLog(process: Process, db: Db, batch: WriteBatch, log: seq<Message>,
                                         from: nat, msgs: seq<Message>)
    requires from + |msgs| <= |log| && msgs == log[from..from + |msgs|]
    ensures BatchOps(process, db, batch, from, msgs) == OpsFor(process, db, batch, log, from, from + |msgs|)
  {
    if msgs != [] {
      BatchOpsInLog(process, db, batch, log, from, msgs[..|msgs| - 1]);
    }
  }

  // ----- the log, cut into batches and committed batch by batch

  /** Where the last commit stands: its kafka offset, or the first offset when there is none. */
  function EndOf(first: nat, cuts: seq<(nat, nat)>): nat {
    if cuts == [] then first else cuts[|cuts| - 1].0
  }

  /** Consecutive cuts, as kafka and file offsets: no kafka offset is before the one committed last, nor
      before its own file. */
  predicate Consecutive(first: nat, cuts: seq<(nat, nat)>) {
    cuts == [] ||
    (var init := cuts[..|cuts| - 1];
     Consecutive(first, init) && EndOf(first, init) <= cuts[|cuts| - 1].0 && cuts[|cuts| - 1].1 <= cuts[|cuts| - 1].0)
  }

  /** The database after the records from the first offset to the last cut were processed once each, in
      order, and committed at each cut: every batch is computed on what the one before left. */
  function Replay(process: Process, offsetKey: bytes, db: Db, log: seq<Message>, first: nat,
                  cuts: seq<(nat, nat)>): Db
    requires Consecutive(first, cuts) && EndOf(first, cuts) <= |log|
  {
    if cuts == [] then db
    else
      var init, k, f := cuts[..|cuts| - 1], cuts[|cuts| - 1].0, cuts[|cuts| - 1].1;
      var before := Replay(process, offsetKey, db, log, first, init);
      Committed(before, offsetKey, k, f, OpsFor(process, before, [], log, EndOf(first, init), k))
  }

  lemma {:induction false} ReplayGrow(process: Process, offsetKey: bytes, db: Db, log: seq<Message>,
                                      more: seq<Message>, first: nat, cuts: seq<(nat, nat)>)
    requires Consecutive(first, cuts) && EndOf(first, cuts) <= |log|
    ensures Replay(process, offsetKey, db, log + more, first, cuts) ==
            Replay(process, offsetKey, db, log, first, cuts)
  {
    hide Committed;
    if cuts != [] {
      var init := cuts[..|cuts| - 1];
      ReplayGrow(process, offsetKey, db, log, more, first, init);
      OpsGrow(process, Replay(process, offsetKey, db, log, first, init), [], log, more,
              EndOf(first, init), cuts[|cuts| - 1].0);
    }
  }

  /** One partition: the database, the files, and the consumer, if it runs, with its batch. */
  datatype System = System(db: Db, files: Files, consumer: Option<Consumer>, batch: WriteBatch)

  datatype Step =
    | Upload(file: seq<Message>)
    | Start(works: bool)
    | Batch(works: bool, budget: nat)
    | Commit(writeOk: bool)
    | Crash

  function Down(s: System): System {
    s.(consumer := None, batch := [])
  }

  predicate Enabled(s: System, step: Step) {
    match step
    case Upload(file) => file != [] && |Log(s.files)| + |file| <= INT64_MAX
    case Start(_) => s.consumer.None?
    case Batch(_, _) => s.consumer.Some?
    case Commit(_) =>
      && s.consumer.Some?
      && s.consumer.value.nextKafkaOffset >= 0 && FileOffsetToCommit(s.consumer.value) >= 0
    case Crash => true
  }

  function Next(process: Process, offsetKey: bytes, s: System, step: Step): System
    requires Enabled(s, step)
  {
    match step
    case Upload(file) => s.(files := s.files + [file])
    case Start(works) =>
      s.(consumer := Init(StoredOffsets(s.db, offsetKey), None, BucketOf(s.files), works), batch := [])
    case Batch(works, budget) =>
      var c := s.consumer.value;
      (match Consume(c, BucketOf(s.files), works, budget)
       case None => Down(s)
       case Some((c', msgs)) =>
         if c.nextKafkaOffset < 0 then Down(s)
         else s.(consumer := Some(c'), batch := BatchOps(process, s.db, s.batch, c.nextKafkaOffset, msgs)))
    case Commit(writeOk) =>
      // a consumer that could not commit must not go on
      if !writeOk then Down(s)
      else
        var c := s.consumer.value;
        s.(db := Committed(s.db, offsetKey, c.nextKafkaOffset, FileOffsetToCommit(c), s.batch), batch := [])
    case Crash => Down(s)
  }

  /** A committed position: a kafka offset in the file that starts at the file offset, or at the
      start of a file that is not there yet. */
  predicate Position(files: Files, k: int, f: int) {
    && 0 <= f <= k
    && match FileAt(files, f)
       case Some(file) => k < f + |file|
       case None => f == |Log(files)| && k == f
  }

  /** The consumer stands where its fields say. */
  predicate Consistent(files: Files, c: Consumer) {
    match c.reader
    case None => c.nextKafkaOffset == c.nextFileOffset && Boundary(files, c.nextFileOffset)
    case Some(rest) =>
      match FileAt(files, c.currentFileOffset)
      case None => false
      case Some(file) =>
        && c.nextFileOffset == c.currentFileOffset + |file|
        && 0 <= c.currentFileOffset <= c.nextKafkaOffset < c.nextFileOffset
        && rest == file[c.nextKafkaOffset - c.currentFileOffset..]
  }

  /** `first` is the offset the partition was started from and `origin` the database then; `cuts` are
      the positions committed since. */
  ghost predicate Inv(process: Process, offsetKey: bytes, first: nat, origin: Db, cuts: seq<(nat, nat)>, s: System) {
    var log := Log(s.files);
    && NonEmptyFiles(s.files) && |log| <= INT64_MAX
    && var stored := StoredOffsets(s.db, offsetKey);
    && stored.Some?
    && var k := stored.value.0;
    && Position(s.files, k, stored.value.1)
    && first <= k <= |log|
    && Consecutive(first, cuts) && EndOf(first, cuts) == k
    && s.db == Replay(process, offsetKey, origin, log, first, cuts)
    && (s.consumer.Some? ==>
          && Consistent(s.files, s.consumer.value)
          && k <= s.consumer.value.nextKafkaOffset <= |log|
          && s.batch == OpsFor(process, s.db, [], log, k, s.consumer.value.nextKafkaOffset))
  }

  lemma PositionBounds(files: Files, k: int, f: int)
    requires NonEmptyFiles(files) && Position(files, k, f)
    ensures 0 <= f <= k <= |Log(files)|
  {
    if FileAt(files, f).Some? {
      FileInLog(files, f);
    }
  }

  lemma PositionGrows(files: Files, file: seq<Message>, k: int, f: int)
    requires NonEmptyFiles(files) && file != [] && Position(files, k, f)
    ensures Position(files + [file], k, f)
  {
    FileAtSnoc(files, file, f);
  }

  lemma ConsistentGrows(files: Files, file: seq<Message>, c: Consumer)
    requires NonEmptyFiles(files) && file != [] && Consistent(files, c)
    ensures Consistent(files + [file], c)
  {
    FileAtSnoc(files, file, c.nextFileOffset);
    FileAtSnoc(files, file, c.currentFileOffset);
  }

  /** A restart from a committed position fails exactly when the position is inside a file and that
      file cannot be downloaded; all offset checks pass. */
  lemma InitFromPosition(files: Files, k: int, f: int, works: bool)
    requires NonEmptyFiles(files) && Position(files, k, f)
    ensures var c := Init(Some((k, f)), None, BucketOf(files), works);
            && (c.Some? <==> works || k == f)
            && (c.Some? ==> Consistent(files, c.value) && c.value.nextKafkaOffset == k)
  {
    hide Download, BucketOf;
    DownloadFrom(files, f, works);
  }

  lemma SliceOfSlice(s: seq<Message>, a: nat, b: nat, i: nat, j: nat)
    requires a <= b <= |s| && i <= j <= b - a
    ensures s[a..b][i..j] == s[a + i..a + j]
  {
    var x, y := s[a..b][i..j], s[a + i..a + j];
    assert forall k :: 0 <= k < |x| ==> x[k] == s[a..b][i + k] == s[a + i + k] == y[k];
    assert |x| == |y| && x == y;
  }

  lemma ReadKeeps(files: Files, c: Consumer, budget: nat)
    requires NonEmptyFiles(files) && Consistent(files, c) && c.reader.Some?
    ensures ReadRecords(c, budget).Some?
    ensures var (c', msgs) := ReadRecords(c, budget).value;
            && Consistent(files, c')
            && c'.nextKafkaOffset == c.nextKafkaOffset + |msgs| <= |Log(files)|
            && msgs == Log(files)[c.nextKafkaOffset..c'.nextKafkaOffset]
  {
    FileInLog(files, c.currentFileOffset);
    var file := FileAt(files, c.currentFileOffset).value;
    var log := Log(files);
    var (c', msgs) := ReadRecords(c, budget).value;
    var at := c.nextKafkaOffset - c.currentFileOffset;
    hide FileAt, Log;
    assert msgs == file[at..at + |msgs|];
    SliceOfSlice(log, c.currentFileOffset, c.currentFileOffset + |file|, at, at + |msgs|);
    if c'.reader.Some? {
      assert c.reader.value[|msgs|..] == file[at + |msgs|..];
    }
  }

  lemma ConsumeKeeps(files: Files, c: Consumer, works: bool, budget: nat)
    requires NonEmptyFiles(files) && Consistent(files, c)
    ensures Consume(c, BucketOf(files), works, budget).Some?
    ensures var (c', msgs) := Consume(c, BucketOf(files), works, budget).value;
            && Consistent(files, c') && 0 <= c.nextKafkaOffset
            && c'.nextKafkaOffset == c.nextKafkaOffset + |msgs| <= |Log(files)|
            && msgs == Log(files)[c.nextKafkaOffset..c'.nextKafkaOffset]
  {
    hide ReadRecords, Download, BucketOf;
    if c.reader.Some? {
      ReadKeeps(files, c, budget);
    } else {
      DownloadFrom(files, c.nextFileOffset, works);
      var download := Download(BucketOf(files), c.nextFileOffset, works);
      if download.Some? {
        FileInLog(files, c.nextFileOffset);
        assert download.value.records[0..] == download.value.records;
        ReadKeeps(files, NextFile(c, download.value), budget);
      } else if FileAt(files, c.nextFileOffset).Some? {
        FileInLog(files, c.nextFileOffset);
      }
    }
  }

  // ----- how many records a batch hands over

  /** How many records there are from an offset to the end of the file that holds it. */
  function LeftInFile(files: Files, offset: nat): (n: nat)
    ensures n == 0 <==> offset >= |Log(files)|
  {
    if files == [] then 0
    else if offset < |files[0]| then |files[0]| - offset
    else LeftInFile(files[1..], offset - |files[0]|)
  }

  lemma {:induction false} LeftInFileAt(files: Files, f: int, offset: int)
    requires NonEmptyFiles(files) && FileAt(files, f).Some? && f <= offset < f + |FileAt(files, f).value|
    ensures 0 <= f && LeftInFile(files, offset) == f + |FileAt(files, f).value| - offset
  {
    if f > 0 {
      LeftInFileAt(files[1..], f - |files[0]|, offset - |files[0]|);
    }
  }

  lemma NothingLeft(files: Files, offset: nat)
    requires NonEmptyFiles(files) && Boundary(files, offset) && FileAt(files, offset).None?
    ensures LeftInFile(files, offset) == 0
  {
    hide LeftInFile;
  }

  /** A batch hands over as many records as the time allows, but no more than 10000 and no more than are
      left in the file; only while a new file cannot be downloaded it hands over none. */
  lemma ConsumeCount(files: Files, c: Consumer, works: bool, budget: nat)
    requires NonEmptyFiles(files) && Consistent(files, c)
    ensures Consume(c, BucketOf(files), works, budget).Some? && 0 <= c.nextKafkaOffset
    ensures var (c', msgs) := Consume(c, BucketOf(files), works, budget).value;
            var left := LeftInFile(files, c.nextKafkaOffset);
            |msgs| == if works || c.reader.Some? then Min(budget, Min(10000, left)) else 0
  {
    ConsumeKeeps(files, c, works, budget);
    hide BucketOf, LeftInFile, Log;
    if c.reader.Some? {
      LeftInFileAt(files, c.currentFileOffset, c.nextKafkaOffset);
    } else {
      DownloadFrom(files, c.nextFileOffset, works);
      hide Download;
      if FileAt(files, c.nextFileOffset).Some? {
        FileInLog(files, c.nextFileOffset);
        LeftInFileAt(files, c.nextFileOffset, c.nextFileOffset);
      } else {
        NothingLeft(files, c.nextFileOffset);
      }
    }
  }

  /** One batch after the other, all downloads working. */
  function ConsumeAll(files: Files, c: Consumer, budgets: seq<nat>): Option<(Consumer, seq<Message>)> {
    if budgets == [] then Some((c, []))
    else
      match ConsumeAll(files, c, budgets[..|budgets| - 1])
      case None => None
      case Some((c1, msgs)) =>
        match Consume(c1, BucketOf(files), true, budgets[|budgets| - 1])
        case None => None
        case Some((c2, more)) => Some((c2, msgs + more))
  }

  lemma {:induction false} ConsumeAdvances(files: Files, c: Consumer, budgets: seq<nat>)
    requires NonEmptyFiles(files) && Consistent(files, c)
    requires forall i :: 0 <= i < |budgets| ==> budgets[i] > 0
    ensures ConsumeAll(files, c, budgets).Some? && 0 <= c.nextKafkaOffset
    ensures var (c', msgs) := ConsumeAll(files, c, budgets).value;
            && Consistent(files, c') && c.nextKafkaOffset <= c'.nextKafkaOffset <= |Log(files)|
            && msgs == Log(files)[c.nextKafkaOffset..c'.nextKafkaOffset]
            && c'.nextKafkaOffset >= Min(c.nextKafkaOffset + |budgets|, |Log(files)|)
  {
    hide Consume, Consistent, BucketOf, Log;
    if budgets == [] {
      ConsumeKeeps(files, c, true, 0);
    } else {
      var init, budget := budgets[..|budgets| - 1], budgets[|budgets| - 1];
      ConsumeAdvances(files, c, init);
      var (c1, msgs) := ConsumeAll(files, c, init).value;
      ConsumeKeeps(files, c1, true, budget);
      ConsumeCount(files, c1, true, budget);
      var (c2, more) := Consume(c1, BucketOf(files), true, budget).value;
      Slices(Log(files), c.nextKafkaOffset, c1.nextKafkaOffset, c2.nextKafkaOffset);
    }
  }

  lemma Slices(s: seq<Message>, a: nat, b: nat, c: nat)
    requires a <= b <= c <= |s|
    ensures s[a..b] + s[b..c] == s[a..c]
  {
  }

  /** Enough batches hand over the rest of the log, every record once and in order. */
  lemma ConsumerReachesTheEnd(files: Files, c: Consumer, budgets: seq<nat>)
    requires NonEmptyFiles(files) && Consistent(files, c)
    requires forall i :: 0 <= i < |budgets| ==> budgets[i] > 0
    requires |budgets| >= |Log(files)| - c.nextKafkaOffset
    ensures 0 <= c.nextKafkaOffset <= |Log(files)| && ConsumeAll(files, c, budgets).Some?
    ensures var (c', msgs) := ConsumeAll(files, c, budgets).value;
            c'.nextKafkaOffset == |Log(files)| && msgs == Log(files)[c.nextKafkaOffset..]
  {
    hide ConsumeAll, Consistent, Log;
    ConsumeAdvances(files, c, budgets);
  }

  // ----- buckets that hold something else

  /** Whatever is in the bucket: a batch ends the process exactly when it stands between files without a
      reader, or when the file has fewer records than are to be read of it. */
  lemma ConsumeFailsExactly(c: Consumer, bucket: Bucket, works: bool, budget: nat)
    requires c.reader.Some? ==> c.nextKafkaOffset < c.nextFileOffset
    ensures var there := works && c.nextFileOffset in bucket && bucket[c.nextFileOffset].count > 0;
            Consume(c, bucket, works, budget).None? <==>
            if c.reader.Some? then
              |c.reader.value| < Min(budget, Min(10000, c.nextFileOffset - c.nextKafkaOffset))
            else
              || c.nextKafkaOffset != c.nextFileOffset
              || (there && |bucket[c.nextFileOffset].records| < Min(budget, Min(10000, bucket[c.nextFileOffset].count)))
  {
  }

  /** An object without a positive count is no object: the consumer waits for it where it is. */
  lemma EmptyObjectIsAwaited(c: Consumer, bucket: Bucket, works: bool, budget: nat)
    requires c.reader.None? && c.nextKafkaOffset == c.nextFileOffset
    requires c.nextFileOffset in bucket ==> bucket[c.nextFileOffset].count <= 0
    ensures Consume(c, bucket, works, budget) == Some((c, []))
  {
  }

  /** Starting at a given offset instead of the stored one: it must be in the file that is stored, or at its
      start when that cannot be downloaded. */
  lemma InitAtOffset(files: Files, k: int, f: int, offset: int, works: bool)
    requires NonEmptyFiles(files) && Position(files, k, f)
    ensures var c := Init(Some((k, f)), Some(offset), BucketOf(files), works);
            var file := FileAt(files, f);
            && (c.Some? <==> if works && file.Some? then f <= offset < f + |file.value| else offset == f)
            && (c.Some? ==> Consistent(files, c.value) && c.value.nextKafkaOffset == offset)
  {
    hide Download, BucketOf;
    DownloadFrom(files, f, works);
  }

  /** Without stored offsets, or with a kafka offset before its file, there is no consumer. */
  lemma InitRefuses(stored: Option<(int, int)>, initial: Option<int>, bucket: Bucket, works: bool)
    requires stored.Some? ==>
               var (committed, fileOffset) := stored.value;
               fileOffset < 0 || (if initial.Some? then initial.value else committed) < fileOffset
    ensures Init(stored, initial, bucket, works).None?
  {
  }

  lemma ConsumerPosition(files: Files, c: Consumer)
    requires NonEmptyFiles(files) && Consistent(files, c)
    ensures Position(files, c.nextKafkaOffset, FileOffsetToCommit(c))
    ensures 0 <= FileOffsetToCommit(c) <= c.nextKafkaOffset <= |Log(files)|
  {
    if c.reader.Some? {
      FileInLog(files, c.currentFileOffset);
    } else if FileAt(files, c.nextFileOffset).Some? {
      FileInLog(files, c.nextFileOffset);
    }
  }

  lemma UploadKeeps(process: Process, offsetKey: bytes, first: nat, origin: Db, cuts: seq<(nat, nat)>,
                    s: System, file: seq<Message>)
    requires Inv(process, offsetKey, first, origin, cuts, s) && Enabled(s, Upload(file))
    ensures Inv(process, offsetKey, first, origin, cuts, Next(process, offsetKey, s, Upload(file)))
  {
    hide StoredOffsets, Replay, Position, Consistent, Consecutive;
    var log, stored := Log(s.files), StoredOffsets(s.db, offsetKey).value;
    LogSnoc(s.files, file);
    PositionGrows(s.files, file, stored.0, stored.1);
    ReplayGrow(process, offsetKey, origin, log, file, first, cuts);
    if s.consumer.Some? {
      ConsistentGrows(s.files, file, s.consumer.value);
      OpsGrow(process, s.db, [], log, file, stored.0, s.consumer.value.nextKafkaOffset);
    }
  }

  lemma StartKeeps(process: Process, offsetKey: bytes, first: nat, origin: Db, cuts: seq<(nat, nat)>,
                   s: System, works: bool)
    requires Inv(process, offsetKey, first, origin, cuts, s) && Enabled(s, Start(works))
    ensures Inv(process, offsetKey, first, origin, cuts, Next(process, offsetKey, s, Start(works)))
  {
    hide StoredOffsets, Replay, Position, Consistent, Init, Consecutive;
    var stored := StoredOffsets(s.db, offsetKey).value;
    InitFromPosition(s.files, stored.0, stored.1, works);
  }

  lemma BatchKeeps(process: Process, offsetKey: bytes, first: nat, origin: Db, cuts: seq<(nat, nat)>,
                   s: System, works: bool, budget: nat)
    requires Inv(process, offsetKey, first, origin, cuts, s) && Enabled(s, Batch(works, budget))
    ensures Inv(process, offsetKey, first, origin, cuts, Next(process, offsetKey, s, Batch(works, budget)))
  {
    hide StoredOffsets, Replay, Position, Consistent, Consume, Consecutive;
    var c, log, k := s.consumer.value, Log(s.files), StoredOffsets(s.db, offsetKey).value.0;
    ConsumeKeeps(s.files, c, works, budget);
    var (c', msgs) := Consume(c, BucketOf(s.files), works, budget).value;
    BatchOpsInLog(process, s.db, s.batch, log, c.nextKafkaOffset, msgs);
    OpsAppend(process, s.db, [], log, k, c.nextKafkaOffset, c'.nextKafkaOffset);
  }

  lemma CommitKeeps(process: Process, offsetKey: bytes, first: nat, origin: Db, cuts: seq<(nat, nat)>, s: System)
    requires Spares(process, OffsetDbKey(offsetKey))
    requires Inv(process, offsetKey, first, origin, cuts, s) && Enabled(s, Commit(true))
    ensures var c := s.consumer.value;
            Inv(process, offsetKey, first, origin, cuts + [(c.nextKafkaOffset, FileOffsetToCommit(c))],
                Next(process, offsetKey, s, Commit(true)))
  {
    hide StoredOffsets, Apply, Position, Consistent, Committed, Spares, FileOffsetToCommit;
    var c, log, k := s.consumer.value, Log(s.files), StoredOffsets(s.db, offsetKey).value.0;
    var n := c.nextKafkaOffset;
    ConsumerPosition(s.files, c);
    OpsSpare(process, s.db, [], log, k, n, OffsetDbKey(offsetKey));
    CommitThenLoad(s.db, offsetKey, n, FileOffsetToCommit(c), s.batch);
    var more := cuts + [(n, FileOffsetToCommit(c))];
    assert more[..|more| - 1] == cuts;
  }

  lemma DownKeeps(process: Process, offsetKey: bytes, first: nat, origin: Db, cuts: seq<(nat, nat)>,
                  s: System, step: Step)
    requires Inv(process, offsetKey, first, origin, cuts, s) && Enabled(s, step)
    requires step.Crash? || step == Commit(false)
    ensures Inv(process, offsetKey, first, origin, cuts, Next(process, offsetKey, s, step))
  {
    hide StoredOffsets, Replay, Position, Consistent, Consecutive;
    assert Next(process, offsetKey, s, step) == Down(s);
  }

  lemma StepKeeps(process: Process, offsetKey: bytes, first: nat, origin: Db, cuts: seq<(nat, nat)>,
                  s: System, step: Step)
    returns (cuts': seq<(nat, nat)>)
    requires Spares(process, OffsetDbKey(offsetKey))
    requires Inv(process, offsetKey, first, origin, cuts, s) && Enabled(s, step)
    ensures Inv(process, offsetKey, first, origin, cuts', Next(process, offsetKey, s, step))
  {
    hide Inv, Next;
    cuts' := cuts;
    match step
    case Upload(file) => UploadKeeps(process, offsetKey, first, origin, cuts, s, file);
    case Start(works) => StartKeeps(process, offsetKey, first, origin, cuts, s, works);
    case Batch(works, budget) => BatchKeeps(process, offsetKey, first, origin, cuts, s, works, budget);
    case Commit(writeOk) =>
      if writeOk {
        CommitKeeps(process, offsetKey, first, origin, cuts, s);
        cuts' := cuts + [(s.consumer.value.nextKafkaOffset, FileOffsetToCommit(s.consumer.value))];
      } else {
        DownKeeps(process, offsetKey, first, origin, cuts, s, step);
      }
    case Crash => DownKeeps(process, offsetKey, first, origin, cuts, s, step);
  }

  function Run(process: Process, offsetKey: bytes, start: System, steps: seq<Step>): Option<System> {
    if steps == [] then Some(start)
    else
      match Run(process, offsetKey, start, steps[..|steps| - 1])
      case None => None
      case Some(s) =>
        if Enabled(s, steps[|steps| - 1]) then Some(Next(process, offsetKey, s, steps[|steps| - 1])) else None
  }

  /** A database with a committed position, and no consumer yet. */
  ghost predicate Initial(offsetKey: bytes, s: System) {
    && s.consumer.None? && NonEmptyFiles(s.files) && |Log(s.files)| <= INT64_MAX
    && var stored := StoredOffsets(s.db, offsetKey);
    && stored.Some? && Position(s.files, stored.value.0, stored.value.1)
  }

  lemma {:induction false} RunKeeps(process: Process, offsetKey: bytes, start: System, steps: seq<Step>)
    returns (cuts: seq<(nat, nat)>)
    requires Spares(process, OffsetDbKey(offsetKey)) && Initial(offsetKey, start)
    requires Run(process, offsetKey, start, steps).Some?
    ensures Inv(process, offsetKey, StoredOffsets(start.db, offsetKey).value.0, start.db, cuts,
                Run(process, offsetKey, start, steps).value)
  {
    hide StoredOffsets, Next, Enabled, Spares;
    if steps == [] {
      var stored := StoredOffsets(start.db, offsetKey).value;
      PositionBounds(start.files, stored.0, stored.1);
      cuts := [];
    } else {
      hide Inv, Initial;
      cuts := RunKeeps(process, offsetKey, start, steps[..|steps| - 1]);
      cuts := StepKeeps(process, offsetKey, StoredOffsets(start.db, offsetKey).value.0, start.db, cuts,
                        Run(process, offsetKey, start, steps[..|steps| - 1]).value, steps[|steps| - 1]);
    }
  }

  /** Exactly once: after any run of uploads, batches, commits that work or fail, crashes and
      restarts, the database is the initial one with the log records from the first offset to the
      stored offset processed once each, in order, in some row of consecutive batches, each computed on
      the database that the one before left. Every restart passes the offset checks; it fails only
      inside a file that cannot be downloaded. */
  lemma ExactlyOnce(process: Process, offsetKey: bytes, start: System, steps: seq<Step>, works: bool)
    returns (cuts: seq<(nat, nat)>)
    requires Spares(process, OffsetDbKey(offsetKey)) && Initial(offsetKey, start)
    requires Run(process, offsetKey, start, steps).Some?
    ensures var s := Run(process, offsetKey, start, steps).value;
            var first := StoredOffsets(start.db, offsetKey).value.0;
            var stored := StoredOffsets(s.db, offsetKey);
            && stored.Some? && 0 <= first <= stored.value.0 <= |Log(s.files)|
            && Consecutive(first, cuts) && EndOf(first, cuts) == stored.value.0
            && s.db == Replay(process, offsetKey, start.db, Log(s.files), first, cuts)
            && (Init(stored, None, BucketOf(s.files), works).Some? <==> works || stored.value.0 == stored.value.1)
  {
    hide StoredOffsets, Run, Replay, Init, Spares, Consecutive;
    cuts := RunKeeps(process, offsetKey, start, steps);
    var s := Run(process, offsetKey, start, steps).value;
    var stored := StoredOffsets(s.db, offsetKey).value;
    InitFromPosition(s.files, stored.0, stored.1, works);
  }

  // ----- handlers that look at nothing but the record

  type RecordOps = (int, Message) -> WriteBatch

  function AllOps(ops: RecordOps, log: seq<Message>, from: nat, to: nat): WriteBatch
    requires to <= |log|
  {
    if to <= from then [] else AllOps(ops, log, from, to - 1) + ops(to - 1, log[to - 1])
  }

  ghost predicate LooksAtRecordOnly(process: Process, ops: RecordOps) {
    forall db: Db, batch: WriteBatch, offset: int, msg: Message ::
      process(db, batch, offset, msg) == ops(offset, msg)
  }

  lemma {:induction false} SameOps(process: Process, ops: RecordOps, db: Db, log: seq<Message>, from: nat, to: nat)
    requires LooksAtRecordOnly(process, ops) && to <= |log|
    ensures OpsFor(process, db, [], log, from, to) == AllOps(ops, log, from, to)
  {
    if from < to {
      SameOps(process, ops, db, log, from, to - 1);
    }
  }

  lemma {:induction false} AllOpsAppend(ops: RecordOps, log: seq<Message>, a: nat, b: nat, c: nat)
    requires a <= b <= c <= |log|
    ensures AllOps(ops, log, a, c) == AllOps(ops, log, a, b) + AllOps(ops, log, b, c)
  {
    if c > b {
      AllOpsAppend(ops, log, a, b, c - 1);
    }
  }

  lemma {:induction false} ConsecutiveFrom(first: nat, cuts: seq<(nat, nat)>)
    requires Consecutive(first, cuts)
    ensures first <= EndOf(first, cuts)
  {
    if cuts != [] {
      ConsecutiveFrom(first, cuts[..|cuts| - 1]);
    }
  }

  /** For these the cuts do not show: outside the offset key the database is the first one with the
      operations of each record applied once, in order. */
  lemma {:induction false} CutsAreInvisible(process: Process, ops: RecordOps, offsetKey: bytes, db: Db,
                                            log: seq<Message>, first: nat, cuts: seq<(nat, nat)>)
    requires LooksAtRecordOnly(process, ops) && Spares(process, OffsetDbKey(offsetKey)) && |log| <= INT64_MAX
    requires Consecutive(first, cuts) && EndOf(first, cuts) <= |log|
    ensures Replay(process, offsetKey, db, log, first, cuts) - {OffsetDbKey(offsetKey)} ==
            Apply(db - {OffsetDbKey(offsetKey)}, AllOps(ops, log, first, EndOf(first, cuts)))
  {
    hide Spares, LooksAtRecordOnly, Committed, Apply;
    var key := OffsetDbKey(offsetKey);
    if cuts == [] {
      ApplyNone(db - {key});
    } else {
      var init, k, f := cuts[..|cuts| - 1], cuts[|cuts| - 1].0, cuts[|cuts| - 1].1;
      var at := EndOf(first, init);
      CutsAreInvisible(process, ops, offsetKey, db, log, first, init);
      ConsecutiveFrom(first, init);
      var before := Replay(process, offsetKey, db, log, first, init);
      SameOps(process, ops, before, log, at, k);
      OpsSpare(process, before, [], log, at, k, key);
      CommitThenLoad(before, offsetKey, k, f, OpsFor(process, before, [], log, at, k));
      AllOpsAppend(ops, log, first, at, k);
      ApplyAppend(db - {key}, AllOps(ops, log, first, at), AllOps(ops, log, at, k));
    }
  }

  /** So over every run each record is applied exactly once, in order. */
  lemma EachRecordOnce(process: Process, ops: RecordOps, offsetKey: bytes, start: System, steps: seq<Step>)
    requires LooksAtRecordOnly(process, ops) && Spares(process, OffsetDbKey(offsetKey))
    requires Initial(offsetKey, start) && Run(process, offsetKey, start, steps).Some?
    ensures var key, s := OffsetDbKey(offsetKey), Run(process, offsetKey, start, steps).value;
            var first, stored := StoredOffsets(start.db, offsetKey).value.0, StoredOffsets(s.db, offsetKey);
            && stored.Some? && 0 <= first <= stored.value.0 <= |Log(s.files)|
            && s.db - {key} == Apply(start.db - {key}, AllOps(ops, Log(s.files), first, stored.value.0))
  {
    hide StoredOffsets, Run, Replay, Apply, AllOps, Spares, LooksAtRecordOnly, Consecutive;
    var cuts := RunKeeps(process, offsetKey, start, steps);
    var s := Run(process, offsetKey, start, steps).value;
    var first := StoredOffsets(start.db, offsetKey).value.0;
    CutsAreInvisible(process, ops, offsetKey, start.db, Log(s.files), first, cuts);
  }

  lemma ApplyNone(db: Db)
    ensures Apply(db, []) == db
  {
  }

  lemma RunSnoc(process: Process, offsetKey: bytes, start: System, steps: seq<Step>, step: Step)
    requires Run(process, offsetKey, start, steps).Some?
    requires Enabled(Run(process, offsetKey, start, steps).value, step)
    ensures Run(process, offsetKey, start, steps + [step]) ==
            Some(Next(process, offsetKey, Run(process, offsetKey, start, steps).value, step))
  {
    hide Next, Enabled;
    assert (steps + [step])[..|steps + [step]| - 1] == steps;
  }

  /** The consumer of a file with two records, started and then given time for one. */
  lemma OneOfTwo(m0: Message, m1: Message)
    ensures var bucket := BucketOf([[m0, m1]]);
            && Init(Some((0, 0)), None, bucket, true) == Some(Consumer(0, 2, 0, Some([m0, m1])))
            && Consume(Consumer(0, 2, 0, Some([m0, m1])), bucket, true, 1) ==
                 Some((Consumer(0, 2, 1, Some([m1])), [m0]))
  {
    var file := [m0, m1];
    DownloadFrom([file], 0, true);
    hide BucketOf, Download;
    assert file[0..] == file && file[1..] == [m1] && file[..1] == [m0];
  }

  /** A run that ends inside a file: of two records one is consumed and committed. A restart that
      cannot download the file fails. */
  lemma StrandedInsideAFile(process: Process, offsetKey: bytes, db: Db, m0: Message, m1: Message)
    requires Spares(process, OffsetDbKey(offsetKey)) && StoredOffsets(db, offsetKey) == Some((0, 0))
    ensures var start := System(db, [[m0, m1]], None, []);
            var steps := [Start(true)] + [Batch(true, 1)] + [Commit(true)] + [Crash];
            && Initial(offsetKey, start)
            && Run(process, offsetKey, start, steps).Some?
            && StoredOffsets(Run(process, offsetKey, start, steps).value.db, offsetKey) == Some((1, 0))
            && Run(process, offsetKey, start, steps + [Start(false)]).Some?
            && Run(process, offsetKey, start, steps + [Start(false)]).value.consumer == None
  {
    var start := System(db, [[m0, m1]], None, []);
    TwoRecords(m0, m1);
    OneOfTwo(m0, m1);
    hide StoredOffsets, Run, Spares, Init, Consume, BucketOf, Committed, Log, Position, Apply;
    assert Run(process, offsetKey, start, []) == Some(start) by { RunNothing(process, offsetKey, start); }
    RunSnoc(process, offsetKey, start, [], Start(true));
    assert [] + [Start(true)] == [Start(true)];
    RunSnoc(process, offsetKey, start, [Start(true)], Batch(true, 1));
    var s2 := Run(process, offsetKey, start, [Start(true)] + [Batch(true, 1)]).value;
    RunSnoc(process, offsetKey, start, [Start(true)] + [Batch(true, 1)], Commit(true));
    BatchOfOne(process, db, OffsetDbKey(offsetKey), m0);
    assert s2.batch == BatchOps(process, db, [], 0, [m0]);
    CommitThenLoad(db, offsetKey, 1, 0, s2.batch);
    var steps := [Start(true)] + [Batch(true, 1)] + [Commit(true)];
    RunSnoc(process, offsetKey, start, steps, Crash);
    RunSnoc(process, offsetKey, start, steps + [Crash], Start(false));
    InitFromPosition([[m0, m1]], 1, 0, false);
  }

  lemma RunNothing(process: Process, offsetKey: bytes, start: System)
    ensures Run(process, offsetKey, start, []) == Some(start)
  {
  }

  lemma TwoRecords(m0: Message, m1: Message)
    ensures var files := [[m0, m1]];
            NonEmptyFiles(files) && |Log(files)| == 2 && Position(files, 0, 0) && Position(files, 1, 0)
  {
    var files: Files := [[m0, m1]];
    assert files[1..] == [] && FileAt(files, 0) == Some(files[0]);
  }

  lemma BatchOfOne(process: Process, db: Db, key: DbKey, m: Message)
    requires Spares(process, key)
    ensures !Touches(BatchOps(process, db, [], 0, [m]), key)
  {
    assert [m][..0] == [];
    assert BatchOps(process, db, [], 0, [m]) == [] + process(db, [], 0, m) == process(db, [], 0, m);
  }
}
