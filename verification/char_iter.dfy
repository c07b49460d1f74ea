/**
 Vectored reads and writes. The framework turns them into one flat call of the driver
 through a bounce buffer; the question is when that equals the flat call itself.
 */
module CharIter {
  import opened Kernel
  import opened Bytes
  import opened StreamCell

  // ----- The memory of an iov_iter -----

  lemma {:induction false} ConcatAppend(a: seq<seq<byte>>, b: seq<seq<byte>>)
    ensures Concat(a + b) == Concat(a) + Concat(b)
  {
    if a == [] {
      assert a + b == b;
    } else {
      assert (a + b)[1..] == a[1..] + b;
      ConcatAppend(a[1..], b);
    }
  }

  lemma ConcatOne(seg: seq<byte>)
    ensures Concat([seg]) == seg
  {
    assert [seg] == [seg] + [];
  }

  /** Segment `i` within the bytes of all segments. */
  lemma {:induction false} ConcatSplit(segs: seq<seq<byte>>, i: nat)
    requires i < |segs|
    ensures Concat(segs) == Concat(segs[..i]) + segs[i] + Concat(segs[i + 1..])
  {
    if i > 0 {
      ConcatSplit(segs[1..], i - 1);
      assert segs[1..][..i - 1] == segs[..i][1..];
      assert segs[1..][i..] == segs[i + 1..];
    }
  }

  /** A copy into one segment is a copy into the bytes of all of them. */
  lemma ConcatStore(segs: seq<seq<byte>>, i: nat, off: nat, piece: seq<byte>)
    requires i < |segs| && piece != [] && off + |piece| <= |segs[i]|
    ensures |Concat(segs[..i])| + off + |piece| <= |Concat(segs)|
    ensures Concat(segs[i := Splice(segs[i], off, piece)])
            == Splice(Concat(segs), |Concat(segs[..i])| + off, piece)
  {
    var now := segs[i := Splice(segs[i], off, piece)];
    ConcatSplit(segs, i);
    ConcatSplit(now, i);
    assert now[..i] == segs[..i] && now[i + 1..] == segs[i + 1..];
    SpliceInside(Concat(segs[..i]), segs[i], Concat(segs[i + 1..]), off, piece);
  }

  lemma SpliceInside(a: seq<byte>, m: seq<byte>, z: seq<byte>, off: nat, piece: seq<byte>)
    requires piece != [] && off + |piece| <= |m|
    ensures a + Splice(m, off, piece) + z == Splice(a + m + z, |a| + off, piece)
  {
    var all := a + m + z;
    assert all[..|a| + off] == a + m[..off];
    assert all[|a| + off + |piece|..] == m[off + |piece|..] + z;
  }

  lemma SpliceRest(mem: seq<byte>, at: nat, piece: seq<byte>)
    requires piece != [] && at + |piece| <= |mem|
    ensures Splice(mem, at, piece) == mem[..at] + Splice(mem[at..], 0, piece)
  {
    SpliceInside(mem[..at], mem[at..], [], 0, piece);
    assert mem[..at] + mem[at..] + [] == mem;
  }

  lemma SpliceFront(mem: seq<byte>, piece: seq<byte>)
    requires 0 < |piece| <= |mem|
    ensures Splice(mem, 0, piece) == piece + mem[|piece|..]
  {}

  lemma SpliceTwice(mem: seq<byte>, at: nat, a: seq<byte>, b: seq<byte>)
    requires at + |a| + |b| <= |mem|
    ensures Splice(Splice(mem, at, a), at + |a|, b) == Splice(mem, at, a + b)
  {
    if a == [] {
      assert a + b == b;
    } else if b == [] {
      assert a + b == a;
    } else {
      var mid := Splice(mem, at, a);
      assert mid[..at + |a|] == mem[..at] + a;
      assert mid[at + |a| + |b|..] == mem[at + |a| + |b|..];
      assert mem[..at] + a + b == mem[..at] + (a + b);
    }
  }

  class Iter {
    var segs: seq<seq<byte>>
    var i: nat       // the segment to go on with
    var off: nat     // and where in it
    var count: nat   // bytes left

    ghost predicate Valid()
      reads this
    {
      && i <= |segs| && (if i < |segs| then off <= |segs[i]| else off == 0)
      && At() + count == |Concat(segs)|
    }

    /** The bytes already passed. */
    ghost function At(): nat
      requires i <= |segs|
      reads this
    {
      |Concat(segs[..i])| + off
    }

    /** The bytes not yet passed. */
    ghost function Rest(): (r: seq<byte>)
      requires Valid()
      reads this
      ensures |r| == count
    {
      Concat(segs)[At()..]
    }

    constructor (segs: seq<seq<byte>>)
      ensures Valid() && this.segs == segs && Rest() == Concat(segs)
    {
      this.segs, i, off, count := segs, 0, 0, |Concat(segs)|;
    }

    /** As long as bytes are left, there is a segment to go on with. */
    lemma SegmentLeft()
      requires Valid() && count > 0
      ensures i < |segs|
    {
      assert segs[..|segs|] == segs;
    }

    /** Go on to the next segment. */
    method Next()
      requires Valid() && i < |segs| && off == |segs[i]|
      modifies this
      ensures Valid() && segs == old(segs) && count == old(count) && At() == old(At()) && i == old(i) + 1
    {
      assert segs[..i + 1] == segs[..i] + [segs[i]];
      ConcatAppend(segs[..i], [segs[i]]);
      ConcatOne(segs[i]);
      i, off := i + 1, 0;
    }

    /** Copy as much of `piece` as fits into the current segment. */
    method StorePiece(piece: seq<byte>)
      requires Valid() && piece != [] && i < |segs| && off + |piece| <= |segs[i]|
      modifies this
      ensures old(At()) + |piece| <= |old(Concat(segs))|
      ensures Valid() && Concat(segs) == Splice(old(Concat(segs)), old(At()), piece)
      ensures At() == old(At()) + |piece| && i == old(i) && |segs| == |old(segs)|
    {
      ConcatStore(segs, i, off, piece);
      hide Concat, Splice;
      ghost var was := segs;
      segs := segs[i := Splice(segs[i], off, piece)];
      assert segs[..i] == was[..i];
      off, count := off + |piece|, count - |piece|;
    }

    /** One turn of the copy: as many bytes from `k` on as the current segment takes. */
    method StoreNext(bytes: seq<byte>, k: nat, ghost mem: seq<byte>, ghost at: nat) returns (n: nat)
      requires Valid() && k < |bytes| && i < |segs| && off < |segs[i]|
      requires at + |bytes| <= |mem| && Concat(segs) == Splice(mem, at, bytes[..k]) && At() == at + k
      modifies this
      ensures 0 < n <= |bytes| - k && Valid() && |segs| == |old(segs)| && i == old(i)
      ensures Concat(segs) == Splice(mem, at, bytes[..k + n]) && At() == at + k + n
    {
      hide Concat, Splice;
      n := if |bytes| - k < |segs[i]| - off then |bytes| - k else |segs[i]| - off;
      var piece := bytes[k..k + n];
      SpliceTwice(mem, at, bytes[..k], piece);
      StorePiece(piece);
      assert bytes[..k + n] == bytes[..k] + piece;
    }

    /** copy_to_iter, all of whose bytes fit. */
    method CopyTo(bytes: seq<byte>)
      requires Valid() && |bytes| <= count
      modifies this
      ensures Valid() && old(At()) + |bytes| <= |old(Concat(segs))|
      ensures Concat(segs) == Splice(old(Concat(segs)), old(At()), bytes)
      ensures At() == old(At()) + |bytes|
    {
      ghost var mem, at := Concat(segs), At();
      var k := 0;
      assert bytes[..0] == [] && Splice(mem, at, []) == mem;
      hide Concat, Splice;
      while k < |bytes|
        invariant k <= |bytes| && Valid() && at + |bytes| <= |mem|
        invariant Concat(segs) == Splice(mem, at, bytes[..k])
        invariant At() == at + k
        decreases |bytes| - k, |segs| - i
      {
        SegmentLeft();
        if off == |segs[i]| {
          Next();
        } else {
          var n := StoreNext(bytes, k, mem, at);
          k := k + n;
        }
      }
      assert bytes[..k] == bytes;
    }

    /** The bytes of the current segment from where the iterator stands. */
    lemma PieceAt(n: nat)
      requires Valid() && i < |segs| && off + n <= |segs[i]|
      ensures At() + n <= |Concat(segs)|
      ensures Concat(segs)[At()..At() + n] == segs[i][off..off + n]
    {
      ConcatSplit(segs, i);
    }

    /** copy_from_iter of all the bytes left. */
    method CopyFrom() returns (bytes: seq<byte>)
      requires Valid()
      modifies this
      ensures Valid() && segs == old(segs) && bytes == old(Rest()) && count == 0
    {
      hide Concat;
      ghost var mem, at := Concat(segs), At();
      bytes := [];
      while count > 0
        invariant Valid() && segs == old(segs)
        invariant at <= At() && bytes == mem[at..At()]
        decreases count, |segs| - i
      {
        SegmentLeft();
        if off == |segs[i]| {
          Next();
        } else {
          var n := |segs[i]| - off;
          PieceAt(n);
          ghost var mid := At();
          bytes := bytes + segs[i][off..];
          off, count := off + n, count - n;
          assert mem[at..mid + n] == mem[at..mid] + mem[mid..mid + n];
          assert At() == mid + n;
        }
      }
    }
  }

  // ----- The driver -----

  /** What a read callback answers, the bytes it put into the buffer, and its new state and position. */
  datatype ReadAnswer<+S> = ReadAnswer(priv: S, ret: int, bytes: seq<byte>, pos: int)
  datatype WriteAnswer<+S> = WriteAnswer(priv: S, ret: int, pos: int)
  datatype IterAnswer<+S> = IterAnswer(priv: S, ret: int, segs: seq<seq<byte>>, pos: int)

  datatype Ops<!S> = Ops(read: Option<(S, nat, int) -> ReadAnswer<S>>,
                         write: Option<(S, seq<byte>, int) -> WriteAnswer<S>>,
                         readIter: Option<(S, seq<seq<byte>>, int) -> IterAnswer<S>>,
                         writeIter: Option<(S, seq<seq<byte>>, int) -> IterAnswer<S>>)

  /** A read never returns more than it was asked for, and fills what it returns. */
  ghost predicate WellBehaved<S(!new)>(ops: Ops<S>) {
    ops.read.Some? ==>
      forall s, n, pos :: var a := ops.read.value(s, n, pos); a.ret <= n && (a.ret > 0 ==> |a.bytes| == a.ret)
  }

  /** What a call did: driver state, return value, user memory, position. */
  datatype Flat<+S> = Flat(priv: S, ret: int, user: seq<byte>, pos: int)

  predicate HasRead<S>(ops: Option<Ops<S>>) {
    ops.Some? && ops.value.read.Some?
  }

  predicate HasWrite<S>(ops: Option<Ops<S>>) {
    ops.Some? && ops.value.write.Some?
  }

  ghost predicate GoodOps<S(!new)>(ops: Option<Ops<S>>) {
    ops.Some? ==> WellBehaved(ops.value)
  }

  /** One flat read. */
  ghost function FlatRead<S(!new)>(removing: bool, ops: Option<Ops<S>>, priv: S, user: seq<byte>, pos: int)
    : (f: Flat<S>)
    requires GoodOps(ops)
    ensures |f.user| == |user| && f.ret <= |user|
  {
    if removing then Flat(priv, -ENODEV, user, pos)
    else if HasRead(ops) then
      var a := ops.value.read.value(priv, |user|, pos);
      Flat(a.priv, a.ret, if a.ret > 0 then Splice(user, 0, a.bytes) else user, a.pos)
    else Flat(priv, -ENOSYS, user, pos)
  }

  /** One flat write. */
  ghost function FlatWrite<S>(removing: bool, ops: Option<Ops<S>>, priv: S, user: seq<byte>, pos: int): Flat<S> {
    if removing then Flat(priv, -ENODEV, user, pos)
    else if HasWrite(ops) then
      var a := ops.value.write.value(priv, user, pos);
      Flat(a.priv, a.ret, user, a.pos)
    else Flat(priv, -ENOSYS, user, pos)
  }

  /** What a vectored call adds before the driver is reached: nothing to do, or no bounce buffer. */
  ghost function Bounced<S>(flat: Flat<S>, reaches: bool, priv: S, user: seq<byte>, pos: int, alive: bool): Flat<S> {
    if reaches && user == [] then Flat(priv, 0, user, pos)
    else if reaches && !alive then Flat(priv, -ENOMEM, user, pos)
    else flat
  }

  /** A vectored read, case by case. */
  lemma BouncedReadIs<S(!new)>(removing: bool, ops: Option<Ops<S>>, priv: S, user: seq<byte>, pos: int, alive: bool)
    requires GoodOps(ops)
    ensures Bounced(FlatRead(removing, ops, priv, user, pos), !removing && HasRead(ops), priv, user, pos, alive)
            == if removing then Flat(priv, -ENODEV, user, pos)
               else if !HasRead(ops) then Flat(priv, -ENOSYS, user, pos)
               else if user == [] then Flat(priv, 0, user, pos)
               else if !alive then Flat(priv, -ENOMEM, user, pos)
               else
                 var a := ops.value.read.value(priv, |user|, pos);
                 Flat(a.priv, a.ret, if a.ret > 0 then a.bytes + user[a.ret..] else user, a.pos)
  {}

  class Device<S(!new)> {
    var removing: bool
    var priv: S
    const ops: Option<Ops<S>>

    constructor (priv: S, ops: Option<Ops<S>>)
      ensures !removing && this.priv == priv && this.ops == ops
    {
      removing, this.priv, this.ops := false, priv, ops;
    }

    /** nv_char_read; `user` is the caller's buffer. */
    method Read(user: array<byte>, pos: int) returns (ret: int, newPos: int)
      requires GoodOps(ops)
      modifies this`priv, user
      ensures removing ==> ret == -ENODEV && newPos == pos && priv == old(priv) && user[..] == old(user[..])
      ensures !removing && (ops.None? || ops.value.read.None?) ==>
                ret == -ENOSYS && newPos == pos && priv == old(priv) && user[..] == old(user[..])
      ensures !removing && ops.Some? && ops.value.read.Some? ==>
                var a := ops.value.read.value(old(priv), user.Length, pos);
                && priv == a.priv && ret == a.ret && newPos == a.pos
                && user[..] == if ret > 0 then a.bytes + old(user[..])[ret..] else old(user[..])
      ensures Flat(priv, ret, user[..], newPos) == FlatRead(removing, ops, old(priv), old(user[..]), pos)
    {
      newPos := pos;
      if removing {
        return -ENODEV, newPos;
      }
      if ops.Some? && ops.value.read.Some? {
        var a := ops.value.read.value(priv, user.Length, pos);
        priv, ret, newPos := a.priv, a.ret, a.pos;
        if a.ret > 0 {
          ghost var was := user[..];
          forall j | 0 <= j < a.ret {
            user[j] := a.bytes[j];
          }
          assert user[..] == Splice(was, 0, a.bytes);
        }
        return;
      }
      ret := -ENOSYS;
    }

    /** nv_char_write. */
    method Write(user: array<byte>, pos: int) returns (ret: int, newPos: int)
      modifies this`priv
      ensures removing ==> ret == -ENODEV && newPos == pos && priv == old(priv)
      ensures !removing && (ops.None? || ops.value.write.None?) ==> ret == -ENOSYS && newPos == pos && priv == old(priv)
      ensures !removing && ops.Some? && ops.value.write.Some? ==>
                WriteAnswer(priv, ret, newPos) == ops.value.write.value(old(priv), user[..], pos)
      ensures Flat(priv, ret, user[..], newPos) == FlatWrite(removing, ops, old(priv), user[..], pos)
    {
      newPos := pos;
      if removing {
        return -ENODEV, newPos;
      }
      if ops.Some? && ops.value.write.Some? {
        var a := ops.value.write.value(priv, user[..], pos);
        priv, ret, newPos := a.priv, a.ret, a.pos;
        return;
      }
      ret := -ENOSYS;
    }

    /** nv_char_read_iter; `alive` says whether the bounce buffer can be had. */
    method ReadIter(iter: Iter, pos: int, alive: bool) returns (ret: int, newPos: int)
      requires GoodOps(ops) && iter.Valid()
      modifies this`priv, iter
      ensures !removing && ops.Some? && ops.value.readIter.Some? ==>
                IterAnswer(priv, ret, iter.segs, newPos) == ops.value.readIter.value(old(priv), old(iter.segs), pos)
      ensures removing || ops.None? || ops.value.readIter.None? ==>
                var user := old(iter.Rest());
                var flat := Bounced(FlatRead(removing, ops, old(priv), user, pos), !removing && HasRead(ops),
                                    old(priv), user, pos, alive);
                && iter.Valid()
                && Flat(priv, ret, flat.user, newPos) == flat
                && Concat(iter.segs) == old(Concat(iter.segs)[..iter.At()]) + flat.user
                && iter.At() == old(iter.At()) + if ret > 0 then ret else 0
      ensures removing ==> ret == -ENODEV && priv == old(priv) && newPos == pos && iter.segs == old(iter.segs)
      ensures !removing && (ops.None? || (ops.value.readIter.None? && ops.value.read.None?)) ==>
                ret == -ENOSYS && priv == old(priv) && newPos == pos && iter.segs == old(iter.segs)
      ensures !removing && ops.Some? && ops.value.readIter.None? && ops.value.read.Some? ==>
                if old(iter.count) == 0 || !alive then
                  && ret == (if old(iter.count) == 0 then 0 else -ENOMEM)
                  && priv == old(priv) && newPos == pos && iter.segs == old(iter.segs)
                else
                  var a := ops.value.read.value(old(priv), old(iter.count), pos);
                  && priv == a.priv && ret == a.ret && newPos == a.pos
                  && (ret <= 0 ==> iter.segs == old(iter.segs))
                  && (ret > 0 ==>
                        Concat(iter.segs) == old(Concat(iter.segs)[..iter.At()]) + (a.bytes + old(iter.Rest())[ret..]))
    {
      newPos := pos;
      assert Concat(iter.segs) == Concat(iter.segs)[..iter.At()] + iter.Rest();
      BouncedReadIs(removing, ops, priv, iter.Rest(), pos, alive);
      hide Concat, FlatRead, Bounced, Splice;
      if removing {
        return -ENODEV, newPos;
      }
      if ops.Some? && ops.value.readIter.Some? {
        var own := ops.value.readIter.value(priv, iter.segs, pos);
        priv, ret, newPos, iter.segs := own.priv, own.ret, own.pos, own.segs;
        iter.i, iter.off, iter.count := *, *, *;
        return;
      }
      if ops.None? || ops.value.read.None? {
        return -ENOSYS, newPos;
      }
      if iter.count == 0 {
        return 0, newPos;
      }
      if !alive {
        return -ENOMEM, newPos;
      }
      ret, newPos := BounceRead(iter, pos);
    }

    /** Lines 180-184: the driver reads into the bounce buffer, which is copied out. */
    method BounceRead(iter: Iter, pos: int) returns (ret: int, newPos: int)
      requires GoodOps(ops) && iter.Valid() && ops.Some? && ops.value.read.Some?
      modifies this`priv, iter
      ensures var a := ops.value.read.value(old(priv), old(iter.count), pos);
              && priv == a.priv && ret == a.ret && newPos == a.pos && ret <= |old(iter.Rest())|
              && iter.Valid() && iter.At() == old(iter.At()) + (if ret > 0 then ret else 0)
              && (ret <= 0 ==> iter.segs == old(iter.segs))
              && (ret > 0 ==>
                    && |a.bytes| == ret
                    && Concat(iter.segs) == old(Concat(iter.segs)[..iter.At()]) + (a.bytes + old(iter.Rest())[ret..]))
    {
      var a := ops.value.read.value(priv, iter.count, pos);
      priv, ret, newPos := a.priv, a.ret, a.pos;
      if ret > 0 {
        SpliceRest(Concat(iter.segs), iter.At(), a.bytes);
        SpliceFront(iter.Rest(), a.bytes);
        hide Concat, Splice;
        iter.CopyTo(a.bytes);
      }
    }

    /** nv_char_write_iter. */
    method WriteIter(iter: Iter, pos: int, alive: bool) returns (ret: int, newPos: int)
      requires iter.Valid()
      modifies this`priv, iter
      ensures !removing && ops.Some? && ops.value.writeIter.Some? ==>
                IterAnswer(priv, ret, iter.segs, newPos) == ops.value.writeIter.value(old(priv), old(iter.segs), pos)
      ensures removing || ops.None? || ops.value.writeIter.None? ==>
                var user := old(iter.Rest());
                && iter.Valid() && iter.segs == old(iter.segs)
                && Flat(priv, ret, user, newPos)
                   == Bounced(FlatWrite(removing, ops, old(priv), user, pos), !removing && HasWrite(ops),
                              old(priv), user, pos, alive)
      ensures removing ==> ret == -ENODEV && priv == old(priv) && newPos == pos
      ensures !removing && (ops.None? || (ops.value.writeIter.None? && ops.value.write.None?)) ==>
                ret == -ENOSYS && priv == old(priv) && newPos == pos
      ensures !removing && ops.Some? && ops.value.writeIter.None? && ops.value.write.Some? ==>
                if old(iter.count) == 0 then ret == 0 && priv == old(priv) && newPos == pos
                else if !alive then ret == -ENOMEM && priv == old(priv) && newPos == pos
                else WriteAnswer(priv, ret, newPos) == ops.value.write.value(old(priv), old(iter.Rest()), pos)
    {
      newPos := pos;
      if removing {
        return -ENODEV, newPos;
      }
      if ops.Some? && ops.value.writeIter.Some? {
        var own := ops.value.writeIter.value(priv, iter.segs, pos);
        priv, ret, newPos, iter.segs := own.priv, own.ret, own.pos, own.segs;
        iter.i, iter.off, iter.count := *, *, *;
        return;
      }
      if ops.None? || ops.value.write.None? {
        return -ENOSYS, newPos;
      }
      if iter.count == 0 {
        return 0, newPos;
      }
      if !alive {
        return -ENOMEM, newPos;
      }
      var kbuf := iter.CopyFrom();
      var a := ops.value.write.value(priv, kbuf, pos);
      priv, ret, newPos := a.priv, a.ret, a.pos;
    }
  }

  // ----- When the bounce path equals the flat call -----

  /** The driver takes a read of nothing as nothing. */
  ghost predicate EmptyReadIsNothing<S>(ops: Option<Ops<S>>, priv: S, pos: int)
    requires HasRead(ops)
  {
    var a := ops.value.read.value(priv, 0, pos);
    a.priv == priv && a.ret == 0 && a.pos == pos
  }

  ghost predicate EmptyWriteIsNothing<S>(ops: Option<Ops<S>>, priv: S, pos: int)
    requires HasWrite(ops)
  {
    ops.value.write.value(priv, [], pos) == WriteAnswer(priv, 0, pos)
  }

  /** With a bounce buffer a vectored read is the flat read, except for a total of zero bytes. */
  lemma ReadIterIsFlatIff<S(!new)>(removing: bool, ops: Option<Ops<S>>, priv: S, user: seq<byte>, pos: int)
    requires GoodOps(ops)
    ensures var reaches := !removing && HasRead(ops);
            var flat := FlatRead(removing, ops, priv, user, pos);
            Bounced(flat, reaches, priv, user, pos, true) == flat
            <==> !reaches || user != [] || EmptyReadIsNothing(ops, priv, pos)
  {}

  lemma WriteIterIsFlatIff<S>(removing: bool, ops: Option<Ops<S>>, priv: S, user: seq<byte>, pos: int)
    ensures var reaches := !removing && HasWrite(ops);
            var flat := FlatWrite(removing, ops, priv, user, pos);
            Bounced(flat, reaches, priv, user, pos, true) == flat
            <==> !reaches || user != [] || EmptyWriteIsNothing(ops, priv, pos)
  {}

  /** The echo and demo drivers, by the cell they keep. */
  function CellOps(kind: Kind): Ops<seq<byte>> {
    Ops(Some((m: seq<byte>, count: nat, pos: int) =>
              var r := ReadCell(kind, m, count, pos); ReadAnswer(m, r.ret, r.bytes, r.pos)),
        Some((m: seq<byte>, bytes: seq<byte>, pos: int) =>
              var (now, r) := Apply(kind, m, Call.Write(bytes, pos)); WriteAnswer(now, r.ret, r.pos)),
        None, None)
  }

  /** For them an empty vectored write differs from an empty write unless there is nothing to lose. */
  lemma EmptyWriteOnCell(kind: Kind, msg: seq<byte>, pos: int)
    ensures WellBehaved(CellOps(kind))
    ensures pos >= 0 ==> EmptyReadIsNothing(Some(CellOps(kind)), msg, pos)
    ensures EmptyWriteIsNothing(Some(CellOps(kind)), msg, pos) <==> msg == [] && pos == 0
  {
    assert FlatWrite(false, Some(CellOps(kind)), msg, [], pos) == Flat([], 0, [], 0);
  }

  /** Write one byte, then write nothing: the flat call empties the message, the vectored one does not. */
  lemma EmptyWriteDiffers()
    ensures var ops := Some(CellOps(Echo));
            && FlatWrite(false, ops, [7], [], 1) == Flat([], 0, [], 0)
            && Bounced(FlatWrite(false, ops, [7], [], 1), true, [7], [], 1, true) == Flat([7], 0, [], 1)
  {}

  lemma ReadOnCell(kind: Kind, msg: seq<byte>, user: seq<byte>)
    ensures var n := if |msg| < |user| then |msg| else |user|;
            FlatRead(false, Some(CellOps(kind)), msg, user, 0) == Flat(msg, n, msg[..n] + user[n..], n)
  {
    var n := if |msg| < |user| then |msg| else |user|;
    if n > 0 {
      assert msg[0..n] == msg[..n];
    } else {
      assert user == msg[..n] + user[n..];
    }
  }

  lemma WriteOnCell(kind: Kind, msg: seq<byte>, user: seq<byte>)
    ensures FlatWrite(false, Some(CellOps(kind)), msg, user, 0).priv == Clip(kind, user)
  {}

  /** A flat write and a flat read from the start: what comes back is the message, clipped. */
  method WriteThenRead(kind: Kind, msg: seq<byte>, from: array<byte>, into: array<byte>)
    requires from != into
    modifies into
    ensures var sent := Clip(kind, from[..]);
            var n := if |sent| < into.Length then |sent| else into.Length;
            into[..] == sent[..n] + old(into[..])[n..]
  {
    EmptyWriteOnCell(kind, msg, 0);
    WriteOnCell(kind, msg, from[..]);
    ReadOnCell(kind, Clip(kind, from[..]), into[..]);
    hide FlatRead, FlatWrite, WellBehaved, Clip;
    var dev := new Device(msg, Some(CellOps(kind)));
    var wrote, at := dev.Write(from, 0);
    var got, end := dev.Read(into, 0);
  }

  /** Any split of a write and any split of a read: what comes back is the message, clipped. */
  method WritevThenReadv(kind: Kind, msg: seq<byte>, from: Iter, into: Iter)
    requires from != into && from.Valid() && into.Valid()
    requires from.count > 0 && into.count > 0
    modifies from, into
    ensures var sent := Clip(kind, old(from.Rest()));
            var n := if |sent| < old(into.count) then |sent| else old(into.count);
            && into.Valid() && into.At() == old(into.At()) + n
            && Concat(into.segs) == old(Concat(into.segs)[..into.At()]) + (sent[..n] + old(into.Rest())[n..])
  {
    EmptyWriteOnCell(kind, msg, 0);
    WriteOnCell(kind, msg, from.Rest());
    ReadOnCell(kind, Clip(kind, from.Rest()), into.Rest());
    hide FlatRead, FlatWrite, Concat, WellBehaved, Clip;
    var dev := new Device(msg, Some(CellOps(kind)));
    var wrote, at := dev.WriteIter(from, 0, true);
    var got, end := dev.ReadIter(into, 0, true);
  }
}
