/**
 Concurrent bios on the RAM disk. Each segment is copied byte by byte under the spinlock,
 and the lock is free between segments, so bios interleave. The byte-grained machine
 refines one whose steps copy whole segments; the theorems about sectors and about
 disjoint bios are proved there and hold for the byte-grained machine.
 */
module RamInterleaving {
  import opened Bytes
  import opened RamDisk

  /** A bio by value; for a read only the sizes of the segments matter. */
  datatype Req = Req(dir: Dir, sector: nat, segs: seq<seq<byte>>)

  ghost predicate GoodReqs(reqs: seq<Req>) {
    forall b :: 0 <= b < |reqs| ==> Aligned(reqs[b].segs)
  }

  /** Where segment `i` of a bio lies; `i == |segs|` gives the end of the bio. */
  ghost function Off(r: Req, i: nat): (o: nat)
    requires Aligned(r.segs) && i <= |r.segs|
  {
    Offsets(r.sector, r.segs)[i]
  }

  lemma OffStep(r: Req, i: nat)
    requires Aligned(r.segs) && i < |r.segs|
    ensures Off(r, i + 1) == Off(r, i) + |r.segs[i]|
    ensures Off(r, 0) <= Off(r, i) <= Off(r, i + 1) <= Off(r, |r.segs|)
  {
    var offs := Offsets(r.sector, r.segs);
    assert offs[i + 1] == offs[i] + |r.segs[i]|;
    OffsGrow(offs, r.segs, 0, i);
    OffsGrow(offs, r.segs, i + 1, |r.segs|);
  }

  // ----- Segments as steps -----

  datatype Phase = Running | Done(st: Status)

  /** A bio in progress: the next segment, and what a read has delivered. */
  datatype Prog = Prog(i: nat, got: seq<seq<byte>>, phase: Phase)
  datatype State = State(disk: seq<byte>, progs: seq<Prog>)

  /** Segment `i` of `r` is in range of a disk of `size` bytes. */
  ghost predicate InRange(r: Req, i: nat, size: nat)
    requires Aligned(r.segs)
  {
    i < |r.segs| && Off(r, i + 1) <= size
  }

  ghost function CopyDisk(disk: seq<byte>, r: Req, i: nat): (d: seq<byte>)
    requires Aligned(r.segs) && InRange(r, i, |disk|)
    ensures |d| == |disk|
  {
    OffStep(r, i);
    if r.dir == Write then Splice(disk, Off(r, i), r.segs[i]) else disk
  }

  ghost function CopyGot(disk: seq<byte>, r: Req, i: nat, got: seq<seq<byte>>): seq<seq<byte>>
    requires Aligned(r.segs) && InRange(r, i, |disk|)
  {
    OffStep(r, i);
    if r.dir == Read then got + [disk[Off(r, i)..Off(r, i + 1)]] else got
  }

  /** One turn of the loop of ram_submit_bio, or its end. */
  ghost function Turn(disk: seq<byte>, r: Req, p: Prog): (seq<byte>, Prog)
    requires Aligned(r.segs)
  {
    if p.phase != Running then (disk, p)
    else if p.i >= |r.segs| then (disk, p.(phase := Done(StsOk)))
    else if !InRange(r, p.i, |disk|) then (disk, p.(phase := Done(StsIoErr)))
    else (CopyDisk(disk, r, p.i), Prog(p.i + 1, CopyGot(disk, r, p.i, p.got), Running))
  }

  ghost function Step(reqs: seq<Req>, s: State, b: nat): (t: State)
    requires GoodReqs(reqs) && |s.progs| == |reqs|
    ensures |t.progs| == |reqs|
  {
    if b >= |reqs| then s
    else var (d, p) := Turn(s.disk, reqs[b], s.progs[b]); State(d, s.progs[b := p])
  }

  ghost function Exec(reqs: seq<Req>, s: State, sched: seq<nat>): (t: State)
    requires GoodReqs(reqs) && |s.progs| == |reqs|
    ensures |t.progs| == |reqs|
    decreases |sched|
  {
    if sched == [] then s else Exec(reqs, Step(reqs, s, sched[0]), sched[1..])
  }

  const FRESH := Prog(0, [], Running)

  function Init(disk: seq<byte>, n: nat): State {
    State(disk, seq(n, _ => FRESH))
  }

  lemma {:induction false} ExecSnoc(reqs: seq<Req>, s: State, sched: seq<nat>, b: nat)
    requires GoodReqs(reqs) && |s.progs| == |reqs|
    ensures Exec(reqs, s, sched + [b]) == Step(reqs, Exec(reqs, s, sched), b)
    decreases |sched|
  {
    if sched == [] {
      assert (sched + [b])[1..] == [];
    } else {
      assert (sched + [b])[1..] == sched[1..] + [b];
      ExecSnoc(reqs, Step(reqs, s, sched[0]), sched[1..], b);
    }
  }

  // ----- Bytes as steps -----

  datatype FinePhase = Test | WantLock | Copying(j: nat) | Finished(st: Status)

  /** `part` is what a read has copied of the current segment. */
  datatype FineProg = FineProg(i: nat, got: seq<seq<byte>>, part: seq<byte>, phase: FinePhase)
  datatype Lock = Free | Held(b: nat)
  datatype FineState = FineState(disk: seq<byte>, lock: Lock, progs: seq<FineProg>)

  const FINE_FRESH := FineProg(0, [], [], Test)

  function FineInit(disk: seq<byte>, n: nat): FineState {
    FineState(disk, Free, seq(n, _ => FINE_FRESH))
  }

  /** The next byte of a copy, or its end. */
  ghost function CopyTurn(disk: seq<byte>, r: Req, p: FineProg): (t: (seq<byte>, FineProg))
    requires Aligned(r.segs) && p.phase.Copying? && InRange(r, p.i, |disk|)
    ensures |t.0| == |disk|
  {
    OffStep(r, p.i);
    var j, at := p.phase.j, Off(r, p.i);
    if j < |r.segs[p.i]| then
      if r.dir == Write then (disk[at + j := r.segs[p.i][j]], p.(phase := Copying(j + 1)))
      else (disk, p.(part := p.part + [disk[at + j]], phase := Copying(j + 1)))
    else
      (disk, FineProg(p.i + 1, if r.dir == Read then p.got + [p.part] else p.got, [], Test))
  }

  /** The next step of bio `b`; a bio that waits for the lock does nothing. */
  ghost function FineStep(reqs: seq<Req>, s: FineState, b: nat): (t: FineState)
    requires GoodReqs(reqs) && |s.progs| == |reqs|
    ensures |t.progs| == |reqs|
  {
    if b >= |reqs| then s
    else
      var r, p := reqs[b], s.progs[b];
      match p.phase
      case Test =>
        s.(progs := s.progs[b := p.(phase :=
          if p.i >= |r.segs| then Finished(StsOk)
          else if InRange(r, p.i, |s.disk|) then WantLock else Finished(StsIoErr))])
      case WantLock =>
        if s.lock != Free then s
        else FineState(s.disk, Held(b), s.progs[b := p.(part := [], phase := Copying(0))])
      case Copying(_) =>
        if !InRange(r, p.i, |s.disk|) then s
        else
          var (d, q) := CopyTurn(s.disk, r, p);
          FineState(d, if q.phase == Test then Free else s.lock, s.progs[b := q])
      case Finished(_) => s
  }

  ghost function FineExec(reqs: seq<Req>, s: FineState, sched: seq<nat>): (t: FineState)
    requires GoodReqs(reqs) && |s.progs| == |reqs|
    ensures |t.progs| == |reqs|
    decreases |sched|
  {
    if sched == [] then s else FineExec(reqs, FineStep(reqs, s, sched[0]), sched[1..])
  }

  // ----- The refinement -----

  /** Mutual exclusion, and how far the copy of the holder has come. */
  ghost predicate CopyOk(disk: seq<byte>, r: Req, p: FineProg)
    requires Aligned(r.segs)
  {
    match p.phase
    case WantLock => InRange(r, p.i, |disk|)
    case Copying(j) =>
      && InRange(r, p.i, |disk|) && j <= |r.segs[p.i]|
      && (OffStep(r, p.i);
          var at := Off(r, p.i);
          if r.dir == Write then disk[at..at + j] == r.segs[p.i][..j] else p.part == disk[at..at + j])
    case _ => true
  }

  ghost predicate FineInv(reqs: seq<Req>, s: FineState) {
    && GoodReqs(reqs) && |s.progs| == |reqs|
    && (forall b :: 0 <= b < |reqs| ==> CopyOk(s.disk, reqs[b], s.progs[b]))
    && (forall b :: 0 <= b < |reqs| ==> (s.progs[b].phase.Copying? <==> s.lock == Held(b)))
    && (s.lock.Held? ==> s.lock.b < |reqs|)
  }

  /** The disk once the current copy is complete: a segment counts from the moment it gets the lock. */
  ghost function AbsDisk(reqs: seq<Req>, s: FineState): seq<byte>
    requires FineInv(reqs, s)
  {
    if s.lock == Free then s.disk
    else
      var b := s.lock.b;
      assert s.progs[b].phase.Copying? && CopyOk(s.disk, reqs[b], s.progs[b]);
      CopyDisk(s.disk, reqs[b], s.progs[b].i)
  }

  ghost function AbsProg(disk: seq<byte>, r: Req, p: FineProg): Prog
    requires Aligned(r.segs) && CopyOk(disk, r, p)
  {
    match p.phase
    case Copying(_) => Prog(p.i + 1, CopyGot(disk, r, p.i, p.got), Running)
    case Finished(st) => Prog(p.i, p.got, Done(st))
    case _ => Prog(p.i, p.got, Running)
  }

  ghost function Abs(reqs: seq<Req>, s: FineState): (a: State)
    requires FineInv(reqs, s)
    ensures |a.progs| == |reqs|
    ensures forall b :: 0 <= b < |reqs| ==> a.progs[b] == AbsProg(s.disk, reqs[b], s.progs[b])
  {
    State(AbsDisk(reqs, s), seq(|reqs|, b requires 0 <= b < |reqs| => AbsProg(s.disk, reqs[b], s.progs[b])))
  }

  /** Whether a step of `b` shows at the level of segments. */
  ghost predicate Commits(reqs: seq<Req>, s: FineState, b: nat)
    requires FineInv(reqs, s)
  {
    && b < |reqs|
    && match s.progs[b].phase {
         case Test => !InRange(reqs[b], s.progs[b].i, |s.disk|)
         case WantLock => s.lock == Free
         case _ => false
       }
  }

  /** Writing one more byte of a segment changes nothing about the disk after the whole segment. */
  lemma CopyByte(disk: seq<byte>, r: Req, i: nat, j: nat)
    requires Aligned(r.segs) && InRange(r, i, |disk|) && r.dir == Write && j < |r.segs[i]|
    ensures Off(r, i) + j < |disk|
    ensures CopyDisk(disk[Off(r, i) + j := r.segs[i][j]], r, i) == CopyDisk(disk, r, i)
  {
    OffStep(r, i);
    var at := Off(r, i);
    var next := disk[at + j := r.segs[i][j]];
    assert next[..at] == disk[..at] && next[at + |r.segs[i]|..] == disk[at + |r.segs[i]|..];
  }

  lemma CopyEnd(disk: seq<byte>, r: Req, i: nat)
    requires Aligned(r.segs) && InRange(r, i, |disk|) && r.dir == Write
    requires IsSlice(disk, Off(r, i), r.segs[i])
    ensures CopyDisk(disk, r, i) == disk
  {
    OffStep(r, i);
    var at := Off(r, i);
    assert disk == disk[..at] + disk[at..at + |r.segs[i]|] + disk[at + |r.segs[i]|..];
  }

  /** A byte of a copy, or its end, does not show at the level of segments. */
  ghost predicate Hidden(disk: seq<byte>, r: Req, p: FineProg)
    requires Aligned(r.segs) && p.phase.Copying? && CopyOk(disk, r, p)
  {
    var (d, q) := CopyTurn(disk, r, p);
    && CopyOk(d, r, q)
    && (q.phase.Copying? || q.phase.Test?)
    && CopyDisk(disk, r, p.i) == (if q.phase.Copying? then CopyDisk(d, r, q.i) else d)
    && AbsProg(d, r, q) == AbsProg(disk, r, p)
  }

  lemma StoreTurnHidden(disk: seq<byte>, r: Req, p: FineProg)
    requires Aligned(r.segs) && p.phase.Copying? && CopyOk(disk, r, p) && r.dir == Write
    ensures Hidden(disk, r, p)
  {
    OffStep(r, p.i);
    var j, at := p.phase.j, Off(r, p.i);
    if j < |r.segs[p.i]| {
      CopyByte(disk, r, p.i, j);
      assert disk[at + j := r.segs[p.i][j]][at..at + j + 1] == disk[at..at + j] + [r.segs[p.i][j]];
      assert r.segs[p.i][..j + 1] == r.segs[p.i][..j] + [r.segs[p.i][j]];
    } else {
      assert r.segs[p.i][..j] == r.segs[p.i];
      CopyEnd(disk, r, p.i);
    }
  }

  lemma FetchTurnHidden(disk: seq<byte>, r: Req, p: FineProg)
    requires Aligned(r.segs) && p.phase.Copying? && CopyOk(disk, r, p) && r.dir == Read
    ensures Hidden(disk, r, p)
  {
    OffStep(r, p.i);
    var j, at := p.phase.j, Off(r, p.i);
    if j < |r.segs[p.i]| {
      assert disk[at..at + j + 1] == disk[at..at + j] + [disk[at + j]];
    }
  }

  lemma CopyTurnHidden(disk: seq<byte>, r: Req, p: FineProg)
    requires Aligned(r.segs) && p.phase.Copying? && CopyOk(disk, r, p)
    ensures Hidden(disk, r, p)
  {
    if r.dir == Write {
      StoreTurnHidden(disk, r, p);
    } else {
      FetchTurnHidden(disk, r, p);
    }
  }

  /** One step of the holder of the lock. */
  lemma HolderStep(reqs: seq<Req>, s: FineState, b: nat)
    requires FineInv(reqs, s) && b < |reqs| && s.progs[b].phase.Copying?
    ensures FineInv(reqs, FineStep(reqs, s, b))
    ensures Abs(reqs, FineStep(reqs, s, b)) == Abs(reqs, s)
  {
    var t := FineStep(reqs, s, b);
    assert CopyOk(s.disk, reqs[b], s.progs[b]);
    CopyTurnHidden(s.disk, reqs[b], s.progs[b]);
    hide CopyTurn, CopyDisk, CopyGot, Off;
    forall c | 0 <= c < |reqs|
      ensures CopyOk(t.disk, reqs[c], t.progs[c])
      ensures t.progs[c].phase.Copying? <==> t.lock == Held(c)
    {
      assert c != b ==> t.progs[c] == s.progs[c] && !s.progs[c].phase.Copying?;
      assert CopyOk(s.disk, reqs[c], s.progs[c]);
    }
    assert AbsDisk(reqs, t) == AbsDisk(reqs, s);
    forall c | 0 <= c < |reqs|
      ensures AbsProg(t.disk, reqs[c], t.progs[c]) == AbsProg(s.disk, reqs[c], s.progs[c])
    {}
  }

  /** One step of a bio that does not hold the lock. */
  lemma OtherStep(reqs: seq<Req>, s: FineState, b: nat)
    requires FineInv(reqs, s) && b < |reqs| && !s.progs[b].phase.Copying?
    ensures FineInv(reqs, FineStep(reqs, s, b))
    ensures Abs(reqs, FineStep(reqs, s, b)) == if Commits(reqs, s, b) then Step(reqs, Abs(reqs, s), b) else Abs(reqs, s)
  {
    var r, p, t := reqs[b], s.progs[b], FineStep(reqs, s, b);
    assert CopyOk(s.disk, r, p);
    assert t.disk == s.disk;
    if p.phase == WantLock && s.lock == Free {
      OffStep(r, p.i);
    }
    forall c | 0 <= c < |reqs|
      ensures CopyOk(t.disk, reqs[c], t.progs[c])
      ensures t.progs[c].phase.Copying? <==> t.lock == Held(c)
    {
      assert c != b ==> t.progs[c] == s.progs[c];
      assert CopyOk(s.disk, reqs[c], s.progs[c]);
    }
  }

  /** The segment-grained schedule behind a byte-grained one: the bios in the order they got the lock. */
  ghost function Committed(reqs: seq<Req>, s: FineState, sched: seq<nat>): seq<nat>
    requires FineInv(reqs, s)
    decreases |sched|
  {
    if sched == [] then []
    else
      FineStepSim(reqs, s, sched[0]);
      (if Commits(reqs, s, sched[0]) then [sched[0]] else []) + Committed(reqs, FineStep(reqs, s, sched[0]), sched[1..])
  }

  lemma FineStepSim(reqs: seq<Req>, s: FineState, b: nat)
    requires FineInv(reqs, s)
    ensures FineInv(reqs, FineStep(reqs, s, b))
    ensures Abs(reqs, FineStep(reqs, s, b)) == if Commits(reqs, s, b) then Step(reqs, Abs(reqs, s), b) else Abs(reqs, s)
  {
    if b < |reqs| {
      if s.progs[b].phase.Copying? {
        HolderStep(reqs, s, b);
      } else {
        OtherStep(reqs, s, b);
      }
    }
  }

  /** The byte-grained machine refines the segment-grained one. */
  lemma {:induction false} FineRefines(reqs: seq<Req>, s: FineState, sched: seq<nat>)
    requires FineInv(reqs, s)
    ensures FineInv(reqs, FineExec(reqs, s, sched))
    ensures Abs(reqs, FineExec(reqs, s, sched)) == Exec(reqs, Abs(reqs, s), Committed(reqs, s, sched))
    decreases |sched|
  {
    if sched != [] {
      var b := sched[0];
      FineStepSim(reqs, s, b);
      FineRefines(reqs, FineStep(reqs, s, b), sched[1..]);
      var rest := Committed(reqs, FineStep(reqs, s, b), sched[1..]);
      if Commits(reqs, s, b) {
        assert ([b] + rest)[1..] == rest;
      } else {
        assert [] + rest == rest;
      }
    }
  }

  lemma FineInitAbs(reqs: seq<Req>, disk: seq<byte>)
    requires GoodReqs(reqs)
    ensures FineInv(reqs, FineInit(disk, |reqs|))
    ensures Abs(reqs, FineInit(disk, |reqs|)) == Init(disk, |reqs|)
  {}
}
