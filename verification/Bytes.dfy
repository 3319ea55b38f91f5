/**
 Bytes and byte strings. A std::string, an IOBuf and a rocksdb::Slice are all `bytes` here.
 */
module Bytes {

  type byte = x: int | 0 <= x < 256
  type bytes = seq<byte>

  const CR: byte := 13
  const LF: byte := 10
  const CRLF: bytes := [CR, LF]

  const INT64_MAX: int := 0x7fff_ffff_ffff_ffff
  const INT64_MIN: int := -0x8000_0000_0000_0000

  predicate IsInt64(n: int) {
    INT64_MIN <= n <= INT64_MAX
  }

  datatype Option<+T> = None | Some(value: T)

  /** The bytes of a C++ string literal. */
  function Ascii(s: string): bytes {
    seq(|s|, i requires 0 <= i < |s| => s[i] as int % 256)
  }

  /** The bytes held by a chain of buffers. */
  function Flatten(chain: seq<bytes>): bytes {
    if chain == [] then [] else chain[0] + Flatten(chain[1..])
  }

  lemma {:induction false} FlattenAppend(a: seq<bytes>, b: seq<bytes>)
    ensures Flatten(a + b) == Flatten(a) + Flatten(b)
  {
    if a == [] {
      assert a + b == b;
    } else {
      assert (a + b)[1..] == a[1..] + b;
      FlattenAppend(a[1..], b);
    }
  }

  lemma FlattenOne(b: bytes)
    ensures Flatten([b]) == b
  {
    assert Flatten([b]) == b + Flatten([]);
  }

  /** The position of the first `c` in `s`, or |s| when there is none. */
  function IndexOf(c: byte, s: bytes): (k: nat)
    ensures k <= |s|
    ensures forall i :: 0 <= i < k ==> s[i] != c
    ensures k < |s| ==> s[k] == c
  {
    if s == [] then 0 else if s[0] == c then 0 else 1 + IndexOf(c, s[1..])
  }

  lemma IndexOfFirst(c: byte, a: bytes, b: bytes)
    requires c !in a
    ensures IndexOf(c, a + [c] + b) == |a|
  {
    var s := a + [c] + b;
    assert s[|a|] == c && forall i :: 0 <= i < |a| ==> s[i] == a[i];
  }

  function ToSet(keys: seq<bytes>): set<bytes> {
    set k | k in keys
  }

  lemma SmallerSet(a: set<bytes>, b: set<bytes>, x: bytes)
    requires a <= b && x in b && x !in a
    ensures |a| < |b|
  {
    var rest := b - {x};
    assert rest == a + (rest - a);
  }

  lemma SubsetSize(a: set<bytes>, b: set<bytes>)
    requires a <= b
    ensures |a| <= |b|
  {
    assert b == a + (b - a);
  }
}
