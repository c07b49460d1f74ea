/**
 What the echo and demo devices promise: one cell that holds the last write, clipped to
 the capacity of the buffer, and reads that return slices of it.
 */
module StreamCell {
  import opened Kernel
  import opened Bytes

  const ECHO_BUF_SIZE := 4096
  const DEMO_BUF_SIZE := 256

  datatype Kind = Echo | Demo

  function Capacity(kind: Kind): nat {
    if kind == Echo then ECHO_BUF_SIZE else DEMO_BUF_SIZE
  }

  function Min(a: int, b: int): int {
    if a < b then a else b
  }

  /** The bytes a buffer takes: the first 4096 for echo, the first 256 for demo. */
  function Clip(kind: Kind, bytes: seq<byte>): (r: seq<byte>)
    ensures r <= bytes && |r| == Min(|bytes|, if kind == Echo then 4096 else 256)
  {
    if |bytes| > Capacity(kind) then bytes[..Capacity(kind)] else bytes
  }

  datatype Call = Read(count: nat, pos: int) | Write(bytes: seq<byte>, pos: int) | Clear | GetLen | Poll
  datatype Reply = Reply(ret: int, bytes: seq<byte>, pos: int)

  /** A read of the cell: a slice from the position, as long as asked for and available. */
  function ReadCell(kind: Kind, msg: seq<byte>, count: nat, pos: int): (r: Reply)
    ensures r.ret <= count && (r.ret >= 0 ==> |r.bytes| == r.ret && r.pos == pos + r.ret)
    ensures 0 <= pos <= |msg| ==> r.bytes <= msg[pos..] && (r.ret == count || r.pos == |msg|)
    ensures pos < 0 || pos > |msg| ==> r.bytes == [] && r.pos == pos
    ensures pos > |msg| ==> r.ret == 0
    ensures pos < 0 ==> r.ret == if kind == Echo then -22 else 0
  {
    if pos < 0 then Reply(if kind == Echo then -EINVAL else 0, [], pos)
    else if pos >= |msg| then Reply(0, [], pos)
    else
      var n := if count > |msg| - pos then |msg| - pos else count;
      Reply(n, msg[pos..pos + n], pos + n)
  }

  /** One call on the cell: its reply and the cell afterwards. */
  function Apply(kind: Kind, msg: seq<byte>, call: Call): (seq<byte>, Reply) {
    match call
    case Read(count, pos) => (msg, ReadCell(kind, msg, count, pos))
    case Write(bytes, _) =>
      var m := Clip(kind, bytes);
      (m, Reply(|m|, [], if kind == Echo then |m| else 0))
    case Clear => ([], Reply(0, [], 0))
    case GetLen => (msg, Reply(|msg|, [], 0))
    case Poll => (msg, Reply(if msg != [] then 1 else 0, [], 0))
  }

  /** What each call means: what it returns, where it leaves the position, and what it leaves in the cell. */
  lemma CallsMean(kind: Kind, msg: seq<byte>, call: Call)
    ensures var (now, r) := Apply(kind, msg, call);
            match call
            case Read(count, pos) => now == msg && (0 <= pos <= |msg| ==> r.ret == Min(count, |msg| - pos))
            case Write(bytes, _) =>
              && now <= bytes && |now| == r.ret == Min(|bytes|, if kind == Echo then 4096 else 256)
              && r.pos == if kind == Echo then r.ret else 0
            case Clear => now == [] && r.ret == 0
            case GetLen => now == msg && r.ret == |msg|
            case Poll => now == msg && (r.ret != 0 <==> msg != [])
  {}

  /** A write is read back from the start: at once for demo, whose position is 0, after a seek to 0 for echo. */
  lemma WriteThenRead(kind: Kind, msg: seq<byte>, bytes: seq<byte>, pos: int, count: nat)
    ensures var (now, w) := Apply(kind, msg, Write(bytes, pos));
            && ReadCell(kind, now, count, 0).bytes
               == bytes[..Min(count, Min(|bytes|, if kind == Echo then 4096 else 256))]
            && (ReadCell(kind, now, count, w.pos).bytes
                == if kind == Demo then ReadCell(kind, now, count, 0).bytes else [])
  {
    var now := Clip(kind, bytes);
    assert now == bytes[..|now|];
    if now != [] {
      var n := Min(count, |now|);
      assert now[0..n] == bytes[..n];
    }
  }

  // ----- Reading in chunks -----

  function Sum(counts: seq<nat>): nat {
    if counts == [] then 0 else counts[0] + Sum(counts[1..])
  }

  /** What a run of reads returns, put together, and where it ends. */
  function ReadChunks(kind: Kind, msg: seq<byte>, pos: int, counts: seq<nat>): (seq<byte>, int)
    decreases |counts|
  {
    if counts == [] then ([], pos)
    else
      var r := ReadCell(kind, msg, counts[0], pos);
      var (rest, end) := ReadChunks(kind, msg, r.pos, counts[1..]);
      (r.bytes + rest, end)
  }

  /** Chunks of any sizes put together are the message, cut at their total size. */
  lemma {:induction false} ChunksAreThePrefix(kind: Kind, msg: seq<byte>, pos: nat, counts: seq<nat>)
    requires pos <= |msg|
    ensures var end := if pos + Sum(counts) > |msg| then |msg| else pos + Sum(counts);
            ReadChunks(kind, msg, pos, counts) == (msg[pos..end], end)
    decreases |counts|
  {
    if counts == [] {
      assert msg[pos..pos] == [];
    } else {
      var r := ReadCell(kind, msg, counts[0], pos);
      ChunksAreThePrefix(kind, msg, r.pos, counts[1..]);
      var end := ReadChunks(kind, msg, r.pos, counts[1..]).1;
      assert msg[pos..r.pos] + msg[r.pos..end] == msg[pos..end];
    }
  }
}
