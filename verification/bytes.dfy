/** Bytes in memory: segments laid end to end, and one flat copy. */
module Bytes {
  type byte = b: int | 0 <= b < 256

  function Concat(segs: seq<seq<byte>>): seq<byte> {
    if segs == [] then [] else segs[0] + Concat(segs[1..])
  }

  /** The memory of a disk or a user after one flat copy of `bytes` to `offset`. */
  function Splice(disk: seq<byte>, offset: nat, bytes: seq<byte>): (r: seq<byte>)
    requires bytes != [] ==> offset + |bytes| <= |disk|
    ensures |r| == |disk|
  {
    if bytes == [] then disk else disk[..offset] + bytes + disk[offset + |bytes|..]
  }

  lemma SpliceHolds(disk: seq<byte>, offset: nat, bytes: seq<byte>)
    requires bytes != [] && offset + |bytes| <= |disk|
    ensures IsSlice(Splice(disk, offset, bytes), offset, bytes)
  {}

  /** `bytes` are the bytes of the disk from `at`. */
  predicate IsSlice(disk: seq<byte>, at: nat, bytes: seq<byte>) {
    at + |bytes| <= |disk| && disk[at..at + |bytes|] == bytes
  }

  lemma ConcatLength(a: seq<seq<byte>>, b: seq<seq<byte>>)
    requires |a| == |b| && forall j :: 0 <= j < |a| ==> |a[j]| == |b[j]|
    ensures |Concat(a)| == |Concat(b)|
  {
    if a != [] {
      ConcatLength(a[1..], b[1..]);
    }
  }
}
