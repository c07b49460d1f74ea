/** What concurrent bios do to the RAM disk: no torn sectors, and disjoint bios do not interfere. */
module RamConcurrentBios {
  import opened Bytes
  import opened RamDisk
  import opened RamInterleaving

  // ----- Sectors -----

  datatype Store = Store(at: nat, bytes: seq<byte>)

  function SectorOf(disk: seq<byte>, k: nat): seq<byte>
    requires RAM_BLOCK_SIZE * (k + 1) <= |disk|
  {
    disk[RAM_BLOCK_SIZE * k..RAM_BLOCK_SIZE * (k + 1)]
  }

  predicate Covers(w: Store, k: nat) {
    w.at <= RAM_BLOCK_SIZE * k && RAM_BLOCK_SIZE * (k + 1) <= w.at + |w.bytes|
  }

  /** The bytes a store has for a sector it covers. */
  function BytesFor(w: Store, k: nat): seq<byte>
    requires Covers(w, k)
  {
    w.bytes[RAM_BLOCK_SIZE * k - w.at..RAM_BLOCK_SIZE * (k + 1) - w.at]
  }

  /** The bytes of the last store that covers sector `k`, or its initial bytes. */
  function LastBytes(initial: seq<byte>, log: seq<Store>, k: nat): seq<byte> {
    if log == [] then initial
    else
      var w := log[|log| - 1];
      if Covers(w, k) then BytesFor(w, k) else LastBytes(initial, log[..|log| - 1], k)
  }

  lemma SpliceSector(disk: seq<byte>, w: Store, k: nat)
    requires w.at % RAM_BLOCK_SIZE == 0 && |w.bytes| % RAM_BLOCK_SIZE == 0 && w.at + |w.bytes| <= |disk|
    requires RAM_BLOCK_SIZE * (k + 1) <= |disk|
    ensures SectorOf(Splice(disk, w.at, w.bytes), k) == if Covers(w, k) then BytesFor(w, k) else SectorOf(disk, k)
  {
    var d := Splice(disk, w.at, w.bytes);
    forall x | RAM_BLOCK_SIZE * k <= x < RAM_BLOCK_SIZE * (k + 1)
      ensures d[x] == if Covers(w, k) then w.bytes[x - w.at] else disk[x]
    {}
  }

  lemma OffAligned(r: Req, i: nat)
    requires Aligned(r.segs) && i <= |r.segs|
    ensures Off(r, i) % RAM_BLOCK_SIZE == 0
  {
    OffsetsEnd(r.sector, r.segs, i);
    ConcatAligned(r.segs[..i]);
  }

  /** The store bio `b` does in its next turn, if any. */
  ghost function StoreOf(reqs: seq<Req>, s: State, b: nat): seq<Store>
    requires GoodReqs(reqs) && |s.progs| == |reqs|
  {
    if b < |reqs| && reqs[b].dir == Write && s.progs[b].phase == Running && InRange(reqs[b], s.progs[b].i, |s.disk|)
    then [Store(Off(reqs[b], s.progs[b].i), reqs[b].segs[s.progs[b].i])]
    else []
  }

  /** All stores of a run, oldest first. */
  ghost function StoreLog(reqs: seq<Req>, disk: seq<byte>, sched: seq<nat>): seq<Store>
    requires GoodReqs(reqs)
  {
    if sched == [] then []
    else
      var before := sched[..|sched| - 1];
      StoreLog(reqs, disk, before) + StoreOf(reqs, Exec(reqs, Init(disk, |reqs|), before), sched[|sched| - 1])
  }

  lemma StepSector(reqs: seq<Req>, s: State, b: nat, k: nat)
    requires GoodReqs(reqs) && |s.progs| == |reqs| && RAM_BLOCK_SIZE * (k + 1) <= |s.disk|
    ensures var t, w := Step(reqs, s, b), StoreOf(reqs, s, b);
            && |t.disk| == |s.disk|
            && SectorOf(t.disk, k) == if w != [] && Covers(w[0], k) then BytesFor(w[0], k) else SectorOf(s.disk, k)
  {
    if StoreOf(reqs, s, b) != [] {
      var r, i := reqs[b], s.progs[b].i;
      OffStep(r, i);
      OffAligned(r, i);
      assert |r.segs[i]| % RAM_BLOCK_SIZE == 0;
      SpliceSector(s.disk, Store(Off(r, i), r.segs[i]), k);
    }
  }

  /** At every moment between two segments, every sector holds what the last store to it wrote. */
  lemma {:induction false} SectorsAreWhole(reqs: seq<Req>, disk: seq<byte>, sched: seq<nat>, k: nat)
    requires GoodReqs(reqs) && RAM_BLOCK_SIZE * (k + 1) <= |disk|
    ensures var s := Exec(reqs, Init(disk, |reqs|), sched);
            && |s.disk| == |disk|
            && SectorOf(s.disk, k) == LastBytes(SectorOf(disk, k), StoreLog(reqs, disk, sched), k)
    decreases |sched|
  {
    if sched != [] {
      var before, b := sched[..|sched| - 1], sched[|sched| - 1];
      assert sched == before + [b];
      var s := Exec(reqs, Init(disk, |reqs|), before);
      SectorsAreWhole(reqs, disk, before, k);
      ExecSnoc(reqs, Init(disk, |reqs|), before, b);
      StepSector(reqs, s, b, k);
      var log, w := StoreLog(reqs, disk, before), StoreOf(reqs, s, b);
      if w != [] {
        assert (log + w)[..|log + w| - 1] == log;
      } else {
        assert log + w == log;
      }
    }
  }

  /** Sector `k` is being copied at this moment. */
  ghost predicate InCopy(reqs: seq<Req>, s: FineState, k: nat)
    requires FineInv(reqs, s)
  {
    && s.lock.Held?
    && var r, i := reqs[s.lock.b], s.progs[s.lock.b].i;
       r.dir == Write && i < |r.segs| && Covers(Store(Off(r, i), r.segs[i]), k)
  }

  /**
   No torn sectors: whatever the interleaving of the bytes, a sector that is not being
   copied holds its initial bytes or exactly those of the last segment written to it.
   */
  lemma NoTornSectors(reqs: seq<Req>, disk: seq<byte>, sched: seq<nat>, k: nat)
    requires GoodReqs(reqs) && RAM_BLOCK_SIZE * (k + 1) <= |disk|
    ensures var s0 := FineInit(disk, |reqs|);
            FineInv(reqs, s0) && FineInv(reqs, FineExec(reqs, s0, sched))
    ensures var s0 := FineInit(disk, |reqs|);
            var s := FineExec(reqs, s0, sched);
            && |s.disk| == |disk|
            && (!InCopy(reqs, s, k) ==>
                  var log := StoreLog(reqs, disk, Committed(reqs, s0, sched));
                  SectorOf(s.disk, k) == LastBytes(SectorOf(disk, k), log, k))
  {
    var s0 := FineInit(disk, |reqs|);
    FineInitAbs(reqs, disk);
    FineRefines(reqs, s0, sched);
    var s := FineExec(reqs, s0, sched);
    SectorsAreWhole(reqs, disk, Committed(reqs, s0, sched), k);
    if s.lock.Held? {
      var r, p := reqs[s.lock.b], s.progs[s.lock.b];
      assert CopyOk(s.disk, r, p);
      OffStep(r, p.i);
      OffAligned(r, p.i);
      assert |r.segs[p.i]| % RAM_BLOCK_SIZE == 0;
      if r.dir == Write {
        SpliceSector(s.disk, Store(Off(r, p.i), r.segs[p.i]), k);
      }
    }
  }

  // ----- Disjoint bios -----

  ghost predicate InRangeOf(r: Req, x: nat)
    requires Aligned(r.segs)
  {
    Off(r, 0) <= x < Off(r, |r.segs|)
  }

  /** Two bios may only share bytes if both read. */
  ghost predicate Disjoint(reqs: seq<Req>) {
    && GoodReqs(reqs)
    && forall b, c :: 0 <= b < |reqs| && 0 <= c < |reqs| && b != c && reqs[b].dir == Write ==>
         Apart(reqs[b], reqs[c])
  }

  ghost predicate Apart(r: Req, q: Req)
    requires Aligned(r.segs) && Aligned(q.segs)
  {
    forall x: nat :: !(InRangeOf(r, x) && InRangeOf(q, x))
  }

  ghost predicate AgreeOn(r: Req, d: seq<byte>, e: seq<byte>)
    requires Aligned(r.segs)
  {
    |d| == |e| && forall x: nat :: x < |d| && InRangeOf(r, x) ==> d[x] == e[x]
  }

  /** A bio alone on the disk, after `n` turns. */
  ghost function Alone(disk: seq<byte>, r: Req, n: nat): (t: (seq<byte>, Prog))
    requires Aligned(r.segs)
    ensures |t.0| == |disk|
  {
    if n == 0 then (disk, FRESH)
    else
      var (d, p) := Alone(disk, r, n - 1);
      Turn(d, r, p)
  }

  /** A turn changes no byte outside the range of its bio, and none at all for a read. */
  lemma TurnFrame(d: seq<byte>, r: Req, p: Prog, x: nat)
    requires Aligned(r.segs) && x < |d|
    requires r.dir == Read || !InRangeOf(r, x)
    ensures |Turn(d, r, p).0| == |d| && Turn(d, r, p).0[x] == d[x]
  {
    if p.phase == Running && InRange(r, p.i, |d|) {
      OffStep(r, p.i);
    }
  }

  /** A turn depends only on the bytes in the range of its bio. */
  lemma TurnAgrees(d: seq<byte>, e: seq<byte>, r: Req, p: Prog)
    requires Aligned(r.segs) && AgreeOn(r, d, e)
    ensures Turn(d, r, p).1 == Turn(e, r, p).1
    ensures AgreeOn(r, Turn(d, r, p).0, Turn(e, r, p).0)
  {
    if p.phase == Running && InRange(r, p.i, |d|) {
      OffStep(r, p.i);
      var at, end := Off(r, p.i), Off(r, p.i + 1);
      forall x: nat | at <= x < end
        ensures d[x] == e[x]
      {
        assert InRangeOf(r, x);
      }
      assert |d| == |e| && end <= |d|;
      assert forall k: nat :: k < end - at ==> d[at..end][k] == e[at..end][k];
      assert d[at..end] == e[at..end];
    }
  }

  function Count(sched: seq<nat>, b: nat): nat {
    if sched == [] then 0
    else Count(sched[..|sched| - 1], b) + (if sched[|sched| - 1] == b then 1 else 0)
  }

  /** No write touches byte `x`. */
  ghost predicate Unwritten(reqs: seq<Req>, x: nat)
    requires GoodReqs(reqs)
  {
    forall b :: 0 <= b < |reqs| && reqs[b].dir == Write ==> !InRangeOf(reqs[b], x)
  }

  /** Each bio is where it would be alone, and so is the disk, range by range. */
  ghost predicate AsIfAlone(reqs: seq<Req>, disk: seq<byte>, s: State, sched: seq<nat>)
    requires GoodReqs(reqs)
  {
    && |s.progs| == |reqs| && |s.disk| == |disk|
    && (forall b :: 0 <= b < |reqs| ==>
          && s.progs[b] == Alone(disk, reqs[b], Count(sched, b)).1
          && AgreeOn(reqs[b], s.disk, Alone(disk, reqs[b], Count(sched, b)).0))
    && (forall x: nat :: x < |disk| && Unwritten(reqs, x) ==> s.disk[x] == disk[x])
  }

  lemma StepAlone(reqs: seq<Req>, disk: seq<byte>, s: State, sched: seq<nat>, b: nat)
    requires Disjoint(reqs) && AsIfAlone(reqs, disk, s, sched)
    ensures AsIfAlone(reqs, disk, Step(reqs, s, b), sched + [b])
  {
    var t := Step(reqs, s, b);
    assert (sched + [b])[..|sched|] == sched;
    if b < |reqs| {
      TurnAgrees(s.disk, Alone(disk, reqs[b], Count(sched, b)).0, reqs[b], s.progs[b]);
      hide Turn, Off;
      forall c | 0 <= c < |reqs|
        ensures t.progs[c] == Alone(disk, reqs[c], Count(sched + [b], c)).1
        ensures AgreeOn(reqs[c], t.disk, Alone(disk, reqs[c], Count(sched + [b], c)).0)
      {
        if c != b {
          forall x: nat | x < |t.disk| && InRangeOf(reqs[c], x)
            ensures t.disk[x] == s.disk[x]
          {
            TurnFrame(s.disk, reqs[b], s.progs[b], x);
          }
        }
      }
      forall x: nat | x < |disk| && Unwritten(reqs, x)
        ensures t.disk[x] == disk[x]
      {
        TurnFrame(s.disk, reqs[b], s.progs[b], x);
      }
    }
  }

  lemma {:induction false} RunsAlone(reqs: seq<Req>, disk: seq<byte>, sched: seq<nat>)
    requires Disjoint(reqs)
    ensures AsIfAlone(reqs, disk, Exec(reqs, Init(disk, |reqs|), sched), sched)
    decreases |sched|
  {
    if sched != [] {
      var before, b := sched[..|sched| - 1], sched[|sched| - 1];
      assert sched == before + [b];
      RunsAlone(reqs, disk, before);
      ExecSnoc(reqs, Init(disk, |reqs|), before, b);
      StepAlone(reqs, disk, Exec(reqs, Init(disk, |reqs|), before), before, b);
    }
  }

  lemma {:induction false} AloneIsDone(disk: seq<byte>, r: Req, n: nat, m: nat)
    requires Aligned(r.segs) && n <= m && Alone(disk, r, n).1.phase != Running
    ensures Alone(disk, r, m) == Alone(disk, r, n)
    decreases m - n
  {
    if n < m {
      AloneIsDone(disk, r, n, m - 1);
    }
  }

  /** A bio needs at most one turn per segment and one to end. */
  lemma {:induction false} AloneAdvances(disk: seq<byte>, r: Req, n: nat)
    requires Aligned(r.segs) && n <= |r.segs| + 1
    ensures var p := Alone(disk, r, n).1; p.phase != Running || (p.i == n && n <= |r.segs|)
  {
    if n > 0 {
      AloneAdvances(disk, r, n - 1);
    }
  }

  ghost predicate Complete(s: State) {
    forall b :: 0 <= b < |s.progs| ==> s.progs[b].phase != Running
  }

  /** Disjoint bios end in the same state, disk, results and data read, whatever the interleaving. */
  lemma DisjointBiosCommute(reqs: seq<Req>, disk: seq<byte>, one: seq<nat>, two: seq<nat>)
    requires Disjoint(reqs)
    requires Complete(Exec(reqs, Init(disk, |reqs|), one)) && Complete(Exec(reqs, Init(disk, |reqs|), two))
    ensures Exec(reqs, Init(disk, |reqs|), one) == Exec(reqs, Init(disk, |reqs|), two)
  {
    var s, t := Exec(reqs, Init(disk, |reqs|), one), Exec(reqs, Init(disk, |reqs|), two);
    RunsAlone(reqs, disk, one);
    RunsAlone(reqs, disk, two);
    hide Off, Exec;
    forall b | 0 <= b < |reqs|
      ensures s.progs[b] == t.progs[b] && AgreeOn(reqs[b], s.disk, t.disk)
    {
      var n, m := Count(one, b), Count(two, b);
      if n <= m {
        AloneIsDone(disk, reqs[b], n, m);
      } else {
        AloneIsDone(disk, reqs[b], m, n);
      }
    }
    forall x: nat | x < |disk|
      ensures s.disk[x] == t.disk[x]
    {
      if b :| 0 <= b < |reqs| && reqs[b].dir == Write && InRangeOf(reqs[b], x) {
        assert AgreeOn(reqs[b], s.disk, t.disk);
      }
    }
    assert s.progs == t.progs;
  }

  function Repeat(b: nat, n: nat): seq<nat> {
    if n == 0 then [] else Repeat(b, n - 1) + [b]
  }

  /** The first `n` bios one after another, each to its end. */
  function OneByOne(reqs: seq<Req>, n: nat): seq<nat>
    requires n <= |reqs|
  {
    if n == 0 then [] else OneByOne(reqs, n - 1) + Repeat(n - 1, |reqs[n - 1].segs| + 1)
  }

  lemma {:induction false} CountAppend(a: seq<nat>, b: seq<nat>, c: nat)
    ensures Count(a + b, c) == Count(a, c) + Count(b, c)
    decreases |b|
  {
    if b == [] {
      assert a + b == a;
    } else {
      assert (a + b)[..|a + b| - 1] == a + b[..|b| - 1];
      CountAppend(a, b[..|b| - 1], c);
    }
  }

  lemma {:induction false} CountRepeat(b: nat, n: nat)
    ensures Count(Repeat(b, n), b) == n
  {
    if n > 0 {
      CountRepeat(b, n - 1);
      assert Repeat(b, n)[..|Repeat(b, n)| - 1] == Repeat(b, n - 1);
    }
  }

  lemma {:induction false} OneByOneCounts(reqs: seq<Req>, n: nat, b: nat)
    requires b < n <= |reqs|
    ensures Count(OneByOne(reqs, n), b) >= |reqs[b].segs| + 1
  {
    CountAppend(OneByOne(reqs, n - 1), Repeat(n - 1, |reqs[n - 1].segs| + 1), b);
    if b == n - 1 {
      CountRepeat(b, |reqs[b].segs| + 1);
    } else {
      OneByOneCounts(reqs, n - 1, b);
    }
  }

  lemma OneByOneCompletes(reqs: seq<Req>, disk: seq<byte>)
    requires Disjoint(reqs)
    ensures Complete(Exec(reqs, Init(disk, |reqs|), OneByOne(reqs, |reqs|)))
  {
    var sched := OneByOne(reqs, |reqs|);
    RunsAlone(reqs, disk, sched);
    forall b | 0 <= b < |reqs|
      ensures Exec(reqs, Init(disk, |reqs|), sched).progs[b].phase != Running
    {
      OneByOneCounts(reqs, |reqs|, b);
      AloneAdvances(disk, reqs[b], |reqs[b].segs| + 1);
      AloneIsDone(disk, reqs[b], |reqs[b].segs| + 1, Count(sched, b));
    }
  }

  /**
   Down to bytes: when disjoint bios have all ended, the disk, the results and the data
   read are those of running the bios one after another.
   */
  lemma DisjointBiosSerialize(reqs: seq<Req>, disk: seq<byte>, sched: seq<nat>)
    requires Disjoint(reqs)
    requires forall b :: 0 <= b < |reqs| ==> FineExec(reqs, FineInit(disk, |reqs|), sched).progs[b].phase.Finished?
    ensures var s, t := FineExec(reqs, FineInit(disk, |reqs|), sched),
                        Exec(reqs, Init(disk, |reqs|), OneByOne(reqs, |reqs|));
            && s.disk == t.disk
            && forall b :: 0 <= b < |reqs| ==>
                 s.progs[b].got == t.progs[b].got && Done(s.progs[b].phase.st) == t.progs[b].phase
  {
    var s0 := FineInit(disk, |reqs|);
    FineInitAbs(reqs, disk);
    FineRefines(reqs, s0, sched);
    OneByOneCompletes(reqs, disk);
    var s, serial := FineExec(reqs, s0, sched), Committed(reqs, s0, sched);
    assert s.lock == Free;
    assert Abs(reqs, s) == Exec(reqs, Init(disk, |reqs|), serial);
    assert Complete(Abs(reqs, s));
    DisjointBiosCommute(reqs, disk, serial, OneByOne(reqs, |reqs|));
  }

  // ----- The machine and ram_submit_bio -----

  /** A read has delivered its first `k` segments from where they lie on the disk. */
  ghost predicate Fetched(disk: seq<byte>, r: Req, got: seq<seq<byte>>, k: nat)
    requires Aligned(r.segs) && k <= |r.segs|
  {
    && |got| == k
    && forall j :: 0 <= j < k ==> |got[j]| == |r.segs[j]| && IsSlice(disk, Off(r, j), got[j])
  }

  /** Put together, that is one flat read. */
  lemma FetchedIsSlice(disk: seq<byte>, r: Req, got: seq<seq<byte>>, k: nat)
    requires Aligned(r.segs) && k <= |r.segs| && Fetched(disk, r, got, k) && (k > 0 ==> Off(r, k) <= |disk|)
    ensures |Concat(got)| == |Payload(r.segs, k)|
    ensures Concat(got) != [] ==> IsSlice(disk, RAM_BLOCK_SIZE * r.sector, Concat(got))
  {
    var offs := Offsets(r.sector, r.segs)[..k + 1];
    ConcatLength(got, r.segs[..k]);
    if k > 0 {
      forall i | 0 <= i < k
        ensures offs[i + 1] == offs[i] + |got[i]|
      {
        OffStep(r, i);
      }
      OffsGrow(Offsets(r.sector, r.segs), r.segs, 0, k);
      SlicesJoin(disk, got, offs, k);
      assert got[..k] == got;
    }
  }

  /** Where a bio alone on the disk stands: what it stored or delivered, and why it stopped. */
  ghost predicate Standing(disk: seq<byte>, r: Req, d: seq<byte>, p: Prog)
    requires Aligned(r.segs)
  {
    && p.i <= |r.segs| && |d| == |disk|
    && (p.i > 0 ==> Off(r, p.i) <= |disk|)
    && (if r.dir == Write then Stored(disk, d, r.segs, Offsets(r.sector, r.segs), p.i)
        else d == disk && Fetched(disk, r, p.got, p.i))
    && match p.phase {
         case Running => true
         case Done(StsOk) => p.i == |r.segs|
         case Done(StsIoErr) => p.i < |r.segs| && Off(r, p.i + 1) > |disk|
       }
  }

  lemma TurnStands(disk: seq<byte>, r: Req, d: seq<byte>, p: Prog)
    requires Aligned(r.segs) && Standing(disk, r, d, p)
    ensures Standing(disk, r, Turn(d, r, p).0, Turn(d, r, p).1)
  {
    if p.phase == Running && InRange(r, p.i, |d|) {
      if r.dir == Write {
        StoreStands(disk, r, d, p);
      } else {
        FetchStands(disk, r, d, p);
      }
    }
  }

  lemma StoreStands(disk: seq<byte>, r: Req, d: seq<byte>, p: Prog)
    requires Aligned(r.segs) && Standing(disk, r, d, p)
    requires p.phase == Running && InRange(r, p.i, |d|) && r.dir == Write
    ensures Standing(disk, r, Turn(d, r, p).0, Turn(d, r, p).1)
  {
    OffStep(r, p.i);
    var at, seg := Off(r, p.i), r.segs[p.i];
    if seg != [] {
      SpliceHolds(d, at, seg);
    }
    StoreStep(disk, d, Turn(d, r, p).0, r.segs, Offsets(r.sector, r.segs), p.i);
  }

  lemma FetchStands(disk: seq<byte>, r: Req, d: seq<byte>, p: Prog)
    requires Aligned(r.segs) && Standing(disk, r, d, p)
    requires p.phase == Running && InRange(r, p.i, |d|) && r.dir == Read
    ensures Standing(disk, r, Turn(d, r, p).0, Turn(d, r, p).1)
  {
    OffStep(r, p.i);
    var q := Turn(d, r, p).1;
    assert q.got == p.got + [disk[Off(r, p.i)..Off(r, p.i + 1)]];
    hide Off;
    assert Fetched(disk, r, q.got, p.i + 1);
  }

  lemma {:induction false} AloneStands(disk: seq<byte>, r: Req, n: nat)
    requires Aligned(r.segs)
    ensures Standing(disk, r, Alone(disk, r, n).0, Alone(disk, r, n).1)
  {
    if n > 0 {
      AloneStands(disk, r, n - 1);
      TurnStands(disk, r, Alone(disk, r, n - 1).0, Alone(disk, r, n - 1).1);
    }
  }

  /** A bio alone does what ram_submit_bio does: the same status, and the same flat write or read. */
  lemma AloneIsSubmitBio(disk: seq<byte>, r: Req, sectors: nat)
    requires Aligned(r.segs) && |disk| == sectors * RAM_BLOCK_SIZE
    ensures var (d, p) := Alone(disk, r, |r.segs| + 1);
            && p.phase.Done? && Outcome(r.sector, r.segs, sectors, p.phase.st, p.i)
            && (r.dir == Write ==> FlatWrite(disk, d, RAM_BLOCK_SIZE * r.sector, Payload(r.segs, p.i)))
            && (r.dir == Read ==>
                  && d == disk && |p.got| == p.i && |Concat(p.got)| == |Payload(r.segs, p.i)|
                  && (Concat(p.got) != [] ==> IsSlice(disk, RAM_BLOCK_SIZE * r.sector, Concat(p.got))))
  {
    var (d, p) := Alone(disk, r, |r.segs| + 1);
    var offs := Offsets(r.sector, r.segs);
    AloneStands(disk, r, |r.segs| + 1);
    AloneAdvances(disk, r, |r.segs| + 1);
    FitStops(r.segs, offs, |disk|, p.i);
    AllFitIff(r.sector, r.segs, sectors, p.i);
    if r.dir == Write {
      StoredIsSplice(disk, d, r.segs, offs, p.i);
    } else {
      FetchedIsSlice(disk, r, p.got, p.i);
    }
  }

  // ----- Nobody waits for ever -----

  lemma {:induction false} FineExecAppend(reqs: seq<Req>, s: FineState, a: seq<nat>, b: seq<nat>)
    requires GoodReqs(reqs) && |s.progs| == |reqs|
    ensures FineExec(reqs, s, a + b) == FineExec(reqs, FineExec(reqs, s, a), b)
    decreases |a|
  {
    if a == [] {
      assert a + b == b;
    } else {
      assert (a + b)[1..] == a[1..] + b;
      FineExecAppend(reqs, FineStep(reqs, s, a[0]), a[1..], b);
    }
  }

  /** `t` is `s` with bio `b` elsewhere. */
  ghost predicate OnlyMoved(reqs: seq<Req>, s: FineState, t: FineState, b: nat) {
    && FineInv(reqs, s) && FineInv(reqs, t)
    && forall c :: 0 <= c < |reqs| && c != b ==> t.progs[c] == s.progs[c]
  }

  /** The holder of the lock comes to the end of its segment. */
  lemma {:induction false} CopyEnds(reqs: seq<Req>, s: FineState, b: nat) returns (sched: seq<nat>)
    requires FineInv(reqs, s) && b < |reqs| && s.lock == Held(b)
    ensures var t := FineExec(reqs, s, sched);
            && OnlyMoved(reqs, s, t, b) && t.lock == Free
            && t.progs[b].phase == Test && t.progs[b].i == s.progs[b].i + 1
    decreases |reqs[b].segs[s.progs[b].i]| - s.progs[b].phase.j
  {
    assert CopyOk(s.disk, reqs[b], s.progs[b]);
    HolderStep(reqs, s, b);
    var t := FineStep(reqs, s, b);
    assert CopyOk(t.disk, reqs[b], t.progs[b]);
    if t.lock == Free {
      sched := [b];
      assert [b][1..] == [];
    } else {
      var rest := CopyEnds(reqs, t, b);
      sched := [b] + rest;
      assert ([b] + rest)[1..] == rest;
    }
  }

  /** With the lock free, a bio can go on to its end. */
  lemma {:induction false} BioEnds(reqs: seq<Req>, s: FineState, b: nat) returns (sched: seq<nat>)
    requires FineInv(reqs, s) && b < |reqs| && s.lock == Free
    ensures var t := FineExec(reqs, s, sched);
            OnlyMoved(reqs, s, t, b) && t.lock == Free && t.progs[b].phase.Finished?
    decreases if s.progs[b].i <= |reqs[b].segs| then |reqs[b].segs| - s.progs[b].i else 0,
              if s.progs[b].phase == Test then 2 else 1
  {
    if s.progs[b].phase.Finished? {
      sched := [];
    } else {
      var t := FineStep(reqs, s, b);
      FineStepSim(reqs, s, b);
      assert CopyOk(s.disk, reqs[b], s.progs[b]);
      if t.lock == Free {
        var rest := BioEnds(reqs, t, b);
        sched := [b] + rest;
        assert ([b] + rest)[1..] == rest;
      } else {
        sched := SegmentThenEnd(reqs, s, t, b);
      }
    }
  }

  /** The same from the moment the bio has got the lock. */
  lemma {:induction false} SegmentThenEnd(reqs: seq<Req>, s: FineState, t: FineState, b: nat) returns (sched: seq<nat>)
    requires FineInv(reqs, s) && b < |reqs| && s.lock == Free && t == FineStep(reqs, s, b)
    requires OnlyMoved(reqs, s, t, b) && t.lock == Held(b) && s.progs[b].i == t.progs[b].i < |reqs[b].segs|
    ensures var u := FineExec(reqs, s, sched);
            OnlyMoved(reqs, s, u, b) && u.lock == Free && u.progs[b].phase.Finished?
    decreases |reqs[b].segs| - s.progs[b].i, 0
  {
    var copy := CopyEnds(reqs, t, b);
    hide FineStep;
    var rest := BioEnds(reqs, FineExec(reqs, t, copy), b);
    FineExecAppend(reqs, t, copy, rest);
    sched := [b] + (copy + rest);
    assert sched[1..] == copy + rest;
  }

  lemma {:induction false} OthersEnd(reqs: seq<Req>, s: FineState, n: nat) returns (sched: seq<nat>)
    requires FineInv(reqs, s) && s.lock == Free && n <= |reqs|
    requires forall b :: 0 <= b < n ==> s.progs[b].phase.Finished?
    ensures var t := FineExec(reqs, s, sched);
            FineInv(reqs, t) && forall b :: 0 <= b < |reqs| ==> t.progs[b].phase.Finished?
    decreases |reqs| - n
  {
    if n == |reqs| {
      sched := [];
    } else {
      var first := BioEnds(reqs, s, n);
      var rest := OthersEnd(reqs, FineExec(reqs, s, first), n + 1);
      FineExecAppend(reqs, s, first, rest);
      sched := first + rest;
    }
  }

  /** From every byte-grained state all bios can be run to their ends. */
  lemma AllCanEnd(reqs: seq<Req>, s: FineState) returns (sched: seq<nat>)
    requires FineInv(reqs, s)
    ensures var t := FineExec(reqs, s, sched);
            FineInv(reqs, t) && forall b :: 0 <= b < |reqs| ==> t.progs[b].phase.Finished?
  {
    var first := [];
    if s.lock != Free {
      first := CopyEnds(reqs, s, s.lock.b);
    }
    var rest := OthersEnd(reqs, FineExec(reqs, s, first), 0);
    FineExecAppend(reqs, s, first, rest);
    sched := first + rest;
  }
}
