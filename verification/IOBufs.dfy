/**
 A chain of buffers, the queue that owns one, and a cursor into one: the parts of folly::IOBufQueue
 and folly::io::Cursor that the decoder uses. Buffers may be empty and may have any size.
 */
module IOBufs {
  import opened Bytes

  class IOBufQueue {
    var chain: seq<bytes>

    constructor ()
      ensures chain == []
    {
      chain := [];
    }

    ghost function Contents(): bytes
      reads this
    {
      Flatten(chain)
    }

    method Append(b: bytes)
      modifies this
      ensures chain == old(chain) + [b] && Contents() == old(Contents()) + b
    {
      FlattenAppend(chain, [b]);
      FlattenOne(b);
      chain := chain + [b];
    }

    method ChainLength() returns (n: nat)
      ensures n == |Contents()|
    {
      n := 0;
      for i := 0 to |chain|
        invariant n + |Flatten(chain[i..])| == |Contents()|
      {
        assert chain[i..][1..] == chain[i + 1..];
        n := n + |chain[i]|;
      }
    }

    method TrimStart(amount: nat)
      requires amount <= |Contents()|
      modifies this
      ensures Contents() == old(Contents())[amount..]
    {
      var left := amount;
      while left > 0
        invariant 0 <= left <= amount && left <= |Contents()|
        invariant Contents()[left..] == old(Contents())[amount..]
        decreases |chain|, left
      {
        ghost var before := Contents();
        assert before == chain[0] + Flatten(chain[1..]);
        if |chain[0]| > left {
          chain := [chain[0][left..]] + chain[1..];
          assert Contents() == before[left..];
          left := 0;
        } else {
          left := left - |chain[0]|;
          chain := chain[1..];
        }
      }
    }
  }

  class Cursor {
    const chain: seq<bytes>
    var index: nat
    var offset: nat

    ghost predicate Valid()
      reads this
    {
      index < |chain| && offset <= |chain[index]|
    }

    /** The bytes from the cursor to the end of the chain. */
    ghost function Remaining(): bytes
      requires Valid()
      reads this
    {
      chain[index][offset..] + Flatten(chain[index + 1..])
    }

    constructor (chain: seq<bytes>)
      requires chain != []
      ensures Valid() && this.chain == chain && Remaining() == Flatten(chain)
    {
      this.chain := chain;
      index, offset := 0, 0;
    }

    constructor Copy(c: Cursor)
      requires c.Valid()
      ensures Valid() && chain == c.chain && Remaining() == c.Remaining()
    {
      chain := c.chain;
      index, offset := c.index, c.offset;
    }

    /** The bytes left in the current buffer, possibly none. */
    method Data() returns (buf: bytes)
      requires Valid()
      ensures buf <= Remaining()
    {
      buf := chain[index][offset..];
    }

    method TotalLength() returns (n: nat)
      requires Valid()
      ensures n == |Remaining()|
    {
      n := |chain[index]| - offset;
      for i := index + 1 to |chain|
        invariant n + |Flatten(chain[i..])| == |Remaining()|
      {
        assert chain[i..][1..] == chain[i + 1..];
        n := n + |chain[i]|;
      }
    }

    /** Step over buffers that are used up. */
    method NextBuffer()
      requires Valid() && Remaining() != []
      modifies this
      ensures Valid() && Remaining() == old(Remaining())
      ensures offset < |chain[index]|
    {
      while offset == |chain[index]|
        invariant Valid() && Remaining() == old(Remaining())
        decreases |chain| - index
      {
        assert chain[index][offset..] == [];
        assert chain[index + 1..] != [];
        assert chain[index + 1..][0] == chain[index + 1];
        assert chain[index + 1..][1..] == chain[index + 2..];
        index, offset := index + 1, 0;
      }
    }

    method Read() returns (c: byte)
      requires Valid() && Remaining() != []
      modifies this
      ensures Valid() && c == old(Remaining())[0] && Remaining() == old(Remaining())[1..]
    {
      NextBuffer();
      c := chain[index][offset];
      offset := offset + 1;
    }

    method Skip(n: nat)
      requires Valid() && n <= |Remaining()|
      modifies this
      ensures Valid() && Remaining() == old(Remaining())[n..]
    {
      var left := n;
      while left > 0
        invariant Valid() && 0 <= left <= n && left <= |Remaining()|
        invariant Remaining()[left..] == old(Remaining())[n..]
        decreases left
      {
        NextBuffer();
        var here := if |chain[index]| - offset < left then |chain[index]| - offset else left;
        ghost var before := Remaining();
        offset := offset + here;
        assert Remaining() == before[here..];
        left := left - here;
      }
    }

    method ReadFixedString(n: nat) returns (s: bytes)
      requires Valid() && n <= |Remaining()|
      modifies this
      ensures Valid() && s == old(Remaining())[..n] && Remaining() == old(Remaining())[n..]
    {
      s := [];
      while |s| < n
        invariant Valid() && |s| <= n
        invariant s == old(Remaining())[..|s|] && Remaining() == old(Remaining())[|s|..]
        decreases n - |s|
      {
        var c := Read();
        s := s + [c];
      }
    }

    /** Read up to the first `terminator` and over it; None, where the source throws
        std::out_of_range, when there is none. */
    method ReadTerminatedString(terminator: byte) returns (s: Option<bytes>)
      requires Valid()
      modifies this
      ensures Valid()
      ensures var b := old(Remaining());
              var k := IndexOf(terminator, b);
              if k == |b| then s == None
              else s == Some(b[..k]) && Remaining() == b[k + 1..]
    {
      ghost var b := Remaining();
      var str: bytes := [];
      var left := TotalLength();
      while left > 0
        invariant Valid() && left == |Remaining()| && |str| + left == |b|
        invariant str == b[..|str|] && Remaining() == b[|str|..]
        invariant terminator !in str
        decreases left
      {
        var c := Read();
        left := left - 1;
        if c == terminator {
          assert b[|str|] == terminator && forall i :: 0 <= i < |str| ==> b[i] == str[i];
          return Some(str);
        }
        str := str + [c];
      }
      assert str == b;
      return None;
    }
  }
}
