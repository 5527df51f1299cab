/** Byte buffers that are filled piece by piece. */
module Buffers {
  import opened Words

  /** `buf[at..at + n].copy_from_slice(bytes)`. */
  function Put(buf: seq<Byte>, at: nat, bytes: seq<Byte>): (r: seq<Byte>)
    requires at + |bytes| <= |buf|
    ensures |r| == |buf|
  {
    buf[..at] + bytes + buf[at + |bytes|..]
  }

  lemma PutSlices(buf: seq<Byte>, at: nat, bytes: seq<Byte>, i: nat, j: nat)
    requires at + |bytes| <= |buf| && i <= j <= |buf|
    ensures j <= at ==> Put(buf, at, bytes)[i..j] == buf[i..j]
    ensures Put(buf, at, bytes)[at..at + |bytes|] == bytes
  {
    var r := Put(buf, at, bytes);
    assert forall k :: 0 <= k < at ==> r[k] == buf[k];
  }

  method CopyAt(buf: array<Byte>, at: nat, bytes: seq<Byte>)
    requires at + |bytes| <= buf.Length
    modifies buf
    ensures buf[..] == Put(old(buf[..]), at, bytes)
  {
    for i := 0 to |bytes|
      invariant forall k :: 0 <= k < buf.Length ==>
        buf[k] == if at <= k < at + i then bytes[k - at] else old(buf[k])
    {
      buf[at + i] := bytes[i];
    }
  }

  lemma PutPut(buf: seq<Byte>, at: nat, a: seq<Byte>, b: seq<Byte>)
    requires at + |a| + |b| <= |buf|
    ensures Put(Put(buf, at, a), at + |a|, b) == Put(buf, at, a + b)
  {
  }
}
