/**
 The database: a map with atomic write batches. A batch is a sequence of puts and deletes; a write
 applies all of it in order or, when it fails, nothing.
 */
module Databases {
  import opened Bytes

  datatype Op<K> = Put(key: K, value: bytes) | Delete(key: K)
  type Store<K> = map<K, bytes>
  type Batch<K> = seq<Op<K>>

  /** A key in a column family, and a database with several of them. */
  datatype DbKey = DbKey(cf: string, key: bytes)
  type Db = Store<DbKey>
  type WriteBatch = Batch<DbKey>

  function ApplyOp<K>(db: Store<K>, op: Op<K>): Store<K> {
    match op
    case Put(k, v) => db[k := v]
    case Delete(k) => db - {k}
  }

  function Apply<K>(db: Store<K>, batch: Batch<K>): Store<K> {
    if batch == [] then db else ApplyOp(Apply(db, batch[..|batch| - 1]), batch[|batch| - 1])
  }

  /** Writing two batches one after the other is writing them as one. */
  lemma {:induction false} ApplyAppend<K>(db: Store<K>, a: Batch<K>, b: Batch<K>)
    ensures Apply(db, a + b) == Apply(Apply(db, a), b)
  {
    if b == [] {
      assert a + b == a;
    } else {
      assert (a + b)[..|a + b| - 1] == a + b[..|b| - 1];
      ApplyAppend(db, a, b[..|b| - 1]);
    }
  }

  ghost predicate Touches<K>(batch: Batch<K>, k: K) {
    exists i :: 0 <= i < |batch| && batch[i].key == k
  }

  lemma TouchesAppend<K>(a: Batch<K>, b: Batch<K>, k: K)
    requires !Touches(a, k) && !Touches(b, k)
    ensures !Touches(a + b, k)
  {
    assert forall i :: |a| <= i < |a + b| ==> (a + b)[i] == b[i - |a|];
  }

  /** A key that no operation names keeps its value, and does not influence the others. */
  lemma {:induction false} UntouchedKey<K>(db: Store<K>, batch: Batch<K>, k: K)
    requires !Touches(batch, k)
    ensures k in Apply(db, batch) <==> k in db
    ensures k in db ==> Apply(db, batch)[k] == db[k]
    ensures Apply(db, batch) - {k} == Apply(db - {k}, batch)
  {
    if batch != [] {
      var init := batch[..|batch| - 1];
      assert !Touches(init, k) by {
        assert forall i :: 0 <= i < |init| ==> init[i] == batch[i];
      }
      UntouchedKey(db, init, k);
      assert batch[|batch| - 1].key != k;
    }
  }

  class Database<K(==)> {
    var contents: Store<K>

    constructor (contents: Store<K>)
      ensures this.contents == contents
    {
      this.contents := contents;
    }

    /** Whether the write goes through is up to the storage below. */
    method Write(batch: Batch<K>, ok: bool)
      modifies this
      ensures contents == if ok then Apply(old(contents), batch) else old(contents)
    {
      if ok {
        ghost var before := contents;
        for i := 0 to |batch|
          invariant contents == Apply(before, batch[..i])
        {
          assert batch[..i + 1][..i] == batch[..i];
          contents := ApplyOp(contents, batch[i]);
        }
        assert batch[..|batch|] == batch;
      }
    }
  }
}
