/**
 Many file descriptors on one echo or demo device. Each call works under the mutex, one
 byte or one field at a time; the theorem is that every interleaving has the replies and
 the final contents of calls made one at a time on the cell.
 */
module StreamLock {
  import opened Bytes
  import opened StreamCell

  /** What a descriptor does next; only a demo device has the last three. */
  datatype Op = ReadOp(count: nat) | WriteOp(bytes: seq<byte>) | SeekOp(to: nat) | ClearOp | LenOp | PollOp

  ghost predicate Supported(kind: Kind, op: Op) {
    kind == Demo || op.ReadOp? || op.WriteOp? || op.SeekOp?
  }

  ghost predicate GoodOps(kind: Kind, ops: seq<seq<Op>>) {
    forall b, k :: 0 <= b < |ops| && 0 <= k < |ops[b]| ==> Supported(kind, ops[b][k])
  }

  /** The call an operation makes from position `pos`. */
  ghost function CallOf(op: Op, pos: int): Call
    requires !op.SeekOp?
  {
    match op
    case ReadOp(count) => Read(count, pos)
    case WriteOp(bytes) => Write(bytes, pos)
    case ClearOp => Clear
    case LenOp => GetLen
    case PollOp => Poll
  }

  /** Only a read or a write moves the position. */
  ghost function Moved(call: Call, pos: int, reply: Reply): int {
    if call.Read? || call.Write? then reply.pos else pos
  }

  // ----- Whole calls as steps -----

  /** A descriptor: its position and the replies it got so far. */
  datatype Fd = Fd(pos: int, done: seq<Reply>)
  datatype State = State(msg: seq<byte>, fds: seq<Fd>)

  ghost function Sought(to: nat): Reply {
    Reply(to, [], to)
  }

  ghost function Turn(kind: Kind, msg: seq<byte>, op: Op, fd: Fd): (seq<byte>, Fd) {
    if op.SeekOp? then (msg, Fd(op.to, fd.done + [Sought(op.to)]))
    else
      var call := CallOf(op, fd.pos);
      var (m, r) := Apply(kind, msg, call);
      (m, Fd(Moved(call, fd.pos, r), fd.done + [r]))
  }

  ghost function Step(kind: Kind, ops: seq<seq<Op>>, s: State, b: nat): (t: State)
    requires |s.fds| == |ops|
    ensures |t.fds| == |ops|
  {
    if b >= |ops| || |s.fds[b].done| >= |ops[b]| then s
    else var (m, fd) := Turn(kind, s.msg, ops[b][|s.fds[b].done|], s.fds[b]); State(m, s.fds[b := fd])
  }

  ghost function Exec(kind: Kind, ops: seq<seq<Op>>, s: State, sched: seq<nat>): (t: State)
    requires |s.fds| == |ops|
    ensures |t.fds| == |ops|
    decreases |sched|
  {
    if sched == [] then s else Exec(kind, ops, Step(kind, ops, s, sched[0]), sched[1..])
  }

  // ----- Single memory accesses as steps -----

  /** The fields of the device; the echo device has no flag and leaves it alone. */
  datatype Shared = Shared(buf: seq<byte>, len: nat, ready: bool)
  datatype Phase = Idle | Entered | Copying(n: nat, j: nat, part: seq<byte>) | LenSet | Leaving(reply: Reply)
  datatype FineFd = FineFd(pos: int, done: seq<Reply>, phase: Phase)
  datatype Lock = Free | Held(b: nat)
  datatype FineState = FineState(sh: Shared, lock: Lock, fds: seq<FineFd>)

  /** The next byte of a copy is there to be copied. */
  ghost predicate InBounds(sh: Shared, call: Call, ph: Phase) {
    ph.Copying? && ph.j < ph.n ==>
      && (call.Read? ==> 0 <= call.pos + ph.j < |sh.buf|)
      && (call.Write? ==> ph.j < |sh.buf| && ph.j < |call.bytes|)
  }

  /** The next step of a call that holds the mutex. */
  ghost function HoldTurn(kind: Kind, sh: Shared, call: Call, ph: Phase): (Shared, Phase)
    requires InBounds(sh, call, ph)
  {
    match ph
    case Entered => (
      match call
      case Read(count, pos) =>
        if (kind == Demo && (!sh.ready || sh.len == 0)) || pos >= sh.len then (sh, Leaving(Reply(0, [], pos)))
        else (sh, Copying(if count > sh.len - pos then sh.len - pos else count, 0, []))
      case Write(bytes, _) => (sh, Copying(if |bytes| > Capacity(kind) then Capacity(kind) else |bytes|, 0, []))
      case Clear => (sh.(len := 0), LenSet)
      case GetLen => (sh, Leaving(Reply(sh.len, [], 0)))
      case Poll => (sh, Leaving(Reply(if sh.ready && sh.len != 0 then 1 else 0, [], 0))))
    case Copying(n, j, part) => (
      match call
      case Read(_, pos) =>
        if j < n then (sh, Copying(n, j + 1, part + [sh.buf[pos + j]]))
        else (sh, Leaving(Reply(n, part, pos + n)))
      case Write(bytes, _) =>
        if j < n then (sh.(buf := sh.buf[j := bytes[j]]), Copying(n, j + 1, part))
        else (sh.(len := n), LenSet)
      case _ => (sh, ph))
    case LenSet =>
      if call.Write? then
        (if kind == Demo then sh.(ready := true) else sh,
         Leaving(Reply(sh.len, [], if kind == Echo then sh.len else 0)))
      else (sh.(ready := false), Leaving(Reply(0, [], 0)))
    case _ => (sh, ph)
  }

  /** The next step of descriptor `b`; one that waits for the mutex does nothing. */
  ghost function FineStep(kind: Kind, ops: seq<seq<Op>>, s: FineState, b: nat): (t: FineState)
    requires |s.fds| == |ops|
    ensures |t.fds| == |ops|
  {
    if b >= |ops| || |s.fds[b].done| >= |ops[b]| then s
    else
      var fd, op := s.fds[b], ops[b][|s.fds[b].done|];
      if op.SeekOp? then s.(fds := s.fds[b := FineFd(op.to, fd.done + [Sought(op.to)], Idle)])
      else
        var call := CallOf(op, fd.pos);
        match fd.phase
        case Idle =>
          if s.lock != Free then s
          else FineState(s.sh, Held(b), s.fds[b := fd.(phase := Entered)])
        case Leaving(r) =>
          FineState(s.sh, Free, s.fds[b := FineFd(Moved(call, fd.pos, r), fd.done + [r], Idle)])
        case ph =>
          if !InBounds(s.sh, call, ph) then s
          else var (sh, q) := HoldTurn(kind, s.sh, call, ph); FineState(sh, s.lock, s.fds[b := fd.(phase := q)])
  }

  ghost function FineExec(kind: Kind, ops: seq<seq<Op>>, s: FineState, sched: seq<nat>): (t: FineState)
    requires |s.fds| == |ops|
    ensures |t.fds| == |ops|
    decreases |sched|
  {
    if sched == [] then s else FineExec(kind, ops, FineStep(kind, ops, s, sched[0]), sched[1..])
  }

  // ----- The refinement -----

  ghost predicate Sound(kind: Kind, sh: Shared) {
    |sh.buf| == Capacity(kind) && sh.len <= Capacity(kind)
  }

  /** What holds of the fields whenever the mutex is free. */
  ghost predicate AtRest(kind: Kind, sh: Shared) {
    Sound(kind, sh) && (kind == Demo && !sh.ready ==> sh.len == 0)
  }

  ghost function Msg(kind: Kind, sh: Shared): seq<byte>
    requires Sound(kind, sh)
  {
    sh.buf[..sh.len]
  }

  ghost predicate GoodCall(kind: Kind, call: Call) {
    && (kind == Demo || call.Read? || call.Write?)
    && (call.Read? ==> call.pos >= 0)
  }

  /** How far a call under the mutex has come. */
  ghost predicate HoldOk(kind: Kind, sh: Shared, call: Call, ph: Phase) {
    && Sound(kind, sh) && GoodCall(kind, call)
    && match ph {
         case Idle => false
         case Entered => AtRest(kind, sh)
         case Copying(n, j, part) =>
           && j <= n
           && ((call.Read? && AtRest(kind, sh) && call.pos + n <= sh.len
                && n == ReadCell(kind, Msg(kind, sh), call.count, call.pos).ret && call.pos < sh.len
                && part == sh.buf[call.pos..call.pos + j])
               || (call.Write? && n == |Clip(kind, call.bytes)| && sh.buf[..j] == call.bytes[..j]))
         case LenSet => (call.Write? && Msg(kind, sh) == Clip(kind, call.bytes)) || (call.Clear? && sh.len == 0)
         case Leaving(r) => AtRest(kind, sh) && Apply(kind, Msg(kind, sh), call) == (Msg(kind, sh), r)
       }
  }

  /** A step under the mutex does not change what the call will have done. */
  ghost predicate Hidden(kind: Kind, sh: Shared, call: Call, ph: Phase)
    requires InBounds(sh, call, ph) && Sound(kind, sh)
  {
    var (t, q) := HoldTurn(kind, sh, call, ph);
    HoldOk(kind, t, call, q) && Apply(kind, Msg(kind, t), call) == Apply(kind, Msg(kind, sh), call)
  }

  lemma ReadTurnHidden(kind: Kind, sh: Shared, call: Call, ph: Phase)
    requires HoldOk(kind, sh, call, ph) && ph.Copying? && call.Read?
    ensures InBounds(sh, call, ph) && Hidden(kind, sh, call, ph)
  {
    if ph.j < ph.n {
      assert sh.buf[call.pos..call.pos + ph.j + 1] == ph.part + [sh.buf[call.pos + ph.j]];
    } else {
      assert Msg(kind, sh)[call.pos..call.pos + ph.n] == ph.part;
    }
  }

  lemma WriteTurnHidden(kind: Kind, sh: Shared, call: Call, ph: Phase)
    requires HoldOk(kind, sh, call, ph) && ph.Copying? && call.Write?
    ensures InBounds(sh, call, ph) && Hidden(kind, sh, call, ph)
  {
    hide ReadCell;
    if ph.j < ph.n {
      assert sh.buf[ph.j := call.bytes[ph.j]][..ph.j + 1] == sh.buf[..ph.j] + [call.bytes[ph.j]];
      assert call.bytes[..ph.j + 1] == call.bytes[..ph.j] + [call.bytes[ph.j]];
    } else {
      assert sh.buf[..ph.n] == Clip(kind, call.bytes);
    }
  }

  lemma HoldTurnHidden(kind: Kind, sh: Shared, call: Call, ph: Phase)
    requires HoldOk(kind, sh, call, ph)
    ensures InBounds(sh, call, ph) && Hidden(kind, sh, call, ph)
  {
    if ph.Copying? {
      if call.Read? {
        ReadTurnHidden(kind, sh, call, ph);
      } else {
        WriteTurnHidden(kind, sh, call, ph);
      }
    }
  }

  /** `n` steps of a call under the mutex. */
  ghost function HoldAfter(kind: Kind, sh: Shared, call: Call, ph: Phase, n: nat): (Shared, Phase)
    decreases n
  {
    if n == 0 || !InBounds(sh, call, ph) then (sh, ph)
    else var (t, q) := HoldTurn(kind, sh, call, ph); HoldAfter(kind, t, call, q, n - 1)
  }

  function Rank(ph: Phase): nat {
    match ph
    case Entered => 3
    case Copying(_, _, _) => 2
    case LenSet => 1
    case _ => 0
  }

  function BytesLeft(ph: Phase): nat {
    if ph.Copying? && ph.j <= ph.n then ph.n - ph.j else 0
  }

  lemma HoldTurnProgress(kind: Kind, sh: Shared, call: Call, ph: Phase)
    requires HoldOk(kind, sh, call, ph) && InBounds(sh, call, ph) && !ph.Leaving?
    ensures var q := HoldTurn(kind, sh, call, ph).1;
            Rank(q) < Rank(ph) || (Rank(q) == Rank(ph) && BytesLeft(q) < BytesLeft(ph))
  {}

  /** Every call under the mutex comes to its end, with the reply and the cell of the call made at once. */
  lemma {:induction false} HoldCompletes(kind: Kind, sh: Shared, call: Call, ph: Phase) returns (n: nat)
    requires HoldOk(kind, sh, call, ph)
    ensures var (t, q) := HoldAfter(kind, sh, call, ph, n);
            && q.Leaving? && AtRest(kind, t)
            && (Msg(kind, t), q.reply) == Apply(kind, Msg(kind, sh), call)
    decreases Rank(ph), BytesLeft(ph)
  {
    HoldFacts(kind, sh, call, ph);
    if ph.Leaving? {
      n := 0;
    } else {
      HoldTurnHidden(kind, sh, call, ph);
      HoldTurnProgress(kind, sh, call, ph);
      hide HoldTurn, HoldOk, Apply, Rank, BytesLeft;
      var (t, q) := HoldTurn(kind, sh, call, ph);
      var m := HoldCompletes(kind, t, call, q);
      n := m + 1;
    }
  }

  ghost predicate FdOk(kind: Kind, ops: seq<Op>, sh: Shared, fd: FineFd) {
    && fd.pos >= 0
    && (fd.phase.Idle?
        || (|fd.done| < |ops| && !ops[|fd.done|].SeekOp?
            && HoldOk(kind, sh, CallOf(ops[|fd.done|], fd.pos), fd.phase)))
  }

  /** Mutual exclusion, and how far the holder has come. */
  ghost predicate FineInv(kind: Kind, ops: seq<seq<Op>>, s: FineState) {
    && GoodOps(kind, ops) && |s.fds| == |ops|
    && Sound(kind, s.sh)
    && (s.lock.Free? ==> AtRest(kind, s.sh))
    && (s.lock.Held? ==> s.lock.b < |ops|)
    && (forall b :: 0 <= b < |ops| ==> FdOk(kind, ops[b], s.sh, s.fds[b]))
    && (forall b :: 0 <= b < |ops| ==> (s.fds[b].phase.Idle? <==> s.lock != Held(b)))
  }

  /** A call counts from the moment it gets the mutex. */
  ghost function AbsFd(kind: Kind, ops: seq<Op>, sh: Shared, fd: FineFd): Fd
    requires FdOk(kind, ops, sh, fd)
  {
    if fd.phase.Idle? then Fd(fd.pos, fd.done)
    else Turn(kind, Msg(kind, sh), ops[|fd.done|], Fd(fd.pos, fd.done)).1
  }

  ghost function AbsMsg(kind: Kind, ops: seq<seq<Op>>, s: FineState): seq<byte>
    requires FineInv(kind, ops, s)
  {
    if s.lock == Free then Msg(kind, s.sh)
    else
      var b := s.lock.b;
      assert FdOk(kind, ops[b], s.sh, s.fds[b]);
      Apply(kind, Msg(kind, s.sh), CallOf(ops[b][|s.fds[b].done|], s.fds[b].pos)).0
  }

  ghost function Abs(kind: Kind, ops: seq<seq<Op>>, s: FineState): (a: State)
    requires FineInv(kind, ops, s)
    ensures |a.fds| == |ops|
    ensures forall b :: 0 <= b < |ops| ==> a.fds[b] == AbsFd(kind, ops[b], s.sh, s.fds[b])
  {
    State(AbsMsg(kind, ops, s), seq(|ops|, b requires 0 <= b < |ops| => AbsFd(kind, ops[b], s.sh, s.fds[b])))
  }

  /** Whether a step of `b` shows at the level of whole calls. */
  ghost predicate Commits(kind: Kind, ops: seq<seq<Op>>, s: FineState, b: nat)
    requires |s.fds| == |ops|
  {
    && b < |ops| && s.fds[b].phase.Idle? && |s.fds[b].done| < |ops[b]|
    && (ops[b][|s.fds[b].done|].SeekOp? || s.lock == Free)
  }

  /** One step of the holder of the mutex. */
  lemma HolderStep(kind: Kind, ops: seq<seq<Op>>, s: FineState, b: nat)
    requires FineInv(kind, ops, s) && b < |ops| && !s.fds[b].phase.Idle?
    ensures FineInv(kind, ops, FineStep(kind, ops, s, b))
    ensures Abs(kind, ops, FineStep(kind, ops, s, b)) == Abs(kind, ops, s)
  {
    var t, fd := FineStep(kind, ops, s, b), s.fds[b];
    assert FdOk(kind, ops[b], s.sh, fd) && s.lock == Held(b);
    var call := CallOf(ops[b][|fd.done|], fd.pos);
    HoldTurnHidden(kind, s.sh, call, fd.phase);
    hide HoldTurn, Apply, HoldOk, ReadCell;
    forall c | 0 <= c < |ops|
      ensures FdOk(kind, ops[c], t.sh, t.fds[c])
      ensures t.fds[c].phase.Idle? <==> t.lock != Held(c)
      ensures AbsFd(kind, ops[c], t.sh, t.fds[c]) == AbsFd(kind, ops[c], s.sh, s.fds[c])
    {
      assert FdOk(kind, ops[c], s.sh, s.fds[c]);
      assert c != b ==> t.fds[c] == s.fds[c] && s.fds[c].phase.Idle?;
      HoldFacts(kind, s.sh, call, fd.phase);
    }
    HoldFacts(kind, s.sh, call, fd.phase);
    HoldFacts(kind, t.sh, call, t.fds[b].phase);
  }

  /** What the invariant of a hold says from outside. */
  lemma HoldFacts(kind: Kind, sh: Shared, call: Call, ph: Phase)
    ensures HoldOk(kind, sh, call, ph) ==> Sound(kind, sh) && !ph.Idle?
    ensures HoldOk(kind, sh, call, ph) && ph.Leaving? ==>
              && AtRest(kind, sh) && Apply(kind, Msg(kind, sh), call) == (Msg(kind, sh), ph.reply)
              && (call.Read? || call.Write? ==> ph.reply.pos >= 0)
  {}

  /** One step of a descriptor that does not hold the mutex. */
  lemma OtherStep(kind: Kind, ops: seq<seq<Op>>, s: FineState, b: nat)
    requires FineInv(kind, ops, s) && b < |ops| && s.fds[b].phase.Idle?
    ensures FineInv(kind, ops, FineStep(kind, ops, s, b))
    ensures Abs(kind, ops, FineStep(kind, ops, s, b))
            == if Commits(kind, ops, s, b) then Step(kind, ops, Abs(kind, ops, s), b) else Abs(kind, ops, s)
  {
    var t, fd := FineStep(kind, ops, s, b), s.fds[b];
    assert FdOk(kind, ops[b], s.sh, fd) && t.sh == s.sh;
    if Commits(kind, ops, s, b) {
      assert Supported(kind, ops[b][|fd.done|]);
    }
    hide Apply, ReadCell;
    forall c | 0 <= c < |ops|
      ensures FdOk(kind, ops[c], t.sh, t.fds[c])
      ensures t.fds[c].phase.Idle? <==> t.lock != Held(c)
    {
      assert c != b ==> t.fds[c] == s.fds[c];
      assert FdOk(kind, ops[c], s.sh, s.fds[c]);
    }
  }

  lemma FineStepSim(kind: Kind, ops: seq<seq<Op>>, s: FineState, b: nat)
    requires FineInv(kind, ops, s)
    ensures FineInv(kind, ops, FineStep(kind, ops, s, b))
    ensures Abs(kind, ops, FineStep(kind, ops, s, b))
            == if Commits(kind, ops, s, b) then Step(kind, ops, Abs(kind, ops, s), b) else Abs(kind, ops, s)
  {
    if b < |ops| {
      if s.fds[b].phase.Idle? {
        OtherStep(kind, ops, s, b);
      } else {
        HolderStep(kind, ops, s, b);
      }
    }
  }

  /** The calls in the order they got the mutex. */
  ghost function Committed(kind: Kind, ops: seq<seq<Op>>, s: FineState, sched: seq<nat>): seq<nat>
    requires |s.fds| == |ops|
    decreases |sched|
  {
    if sched == [] then []
    else (if Commits(kind, ops, s, sched[0]) then [sched[0]] else [])
         + Committed(kind, ops, FineStep(kind, ops, s, sched[0]), sched[1..])
  }

  /** Every interleaving of single accesses is a run of whole calls on the cell. */
  lemma {:induction false} FineRefines(kind: Kind, ops: seq<seq<Op>>, s: FineState, sched: seq<nat>)
    requires FineInv(kind, ops, s)
    ensures FineInv(kind, ops, FineExec(kind, ops, s, sched))
    ensures Abs(kind, ops, FineExec(kind, ops, s, sched))
            == Exec(kind, ops, Abs(kind, ops, s), Committed(kind, ops, s, sched))
    decreases |sched|
  {
    if sched != [] {
      var b := sched[0];
      FineStepSim(kind, ops, s, b);
      FineRefines(kind, ops, FineStep(kind, ops, s, b), sched[1..]);
      var rest := Committed(kind, ops, FineStep(kind, ops, s, b), sched[1..]);
      if Commits(kind, ops, s, b) {
        assert ([b] + rest)[1..] == rest;
      } else {
        assert [] + rest == rest;
      }
    }
  }

  // ----- What a reader can see -----

  /** The operation descriptor `b` does next, if any. */
  ghost function NextOp(ops: seq<seq<Op>>, s: State, b: nat): seq<Op>
    requires |s.fds| == |ops|
  {
    if b < |ops| && |s.fds[b].done| < |ops[b]| then [ops[b][|s.fds[b].done|]] else []
  }

  /** The operations of a run, oldest first. */
  ghost function OpLog(kind: Kind, ops: seq<seq<Op>>, s: State, sched: seq<nat>): seq<Op>
    requires |s.fds| == |ops|
  {
    if sched == [] then []
    else
      var before := sched[..|sched| - 1];
      OpLog(kind, ops, s, before) + NextOp(ops, Exec(kind, ops, s, before), sched[|sched| - 1])
  }

  /** What the last write or clear left, or nothing. */
  function LastMsg(kind: Kind, log: seq<Op>): seq<byte> {
    if log == [] then []
    else
      match log[|log| - 1]
      case WriteOp(bytes) => Clip(kind, bytes)
      case ClearOp => []
      case _ => LastMsg(kind, log[..|log| - 1])
  }

  /**
   Where a descriptor stands: a read moves it on by what it returned, a write to its end or
   back to 0, a seek to where it says.
   */
  function PosAfter(kind: Kind, ops: seq<Op>, done: seq<Reply>): int
    requires |done| <= |ops|
  {
    if done == [] then 0
    else
      var k := |done| - 1;
      match ops[k]
      case ReadOp(_) => PosAfter(kind, ops, done[..k]) + |done[k].bytes|
      case WriteOp(bytes) => if kind == Echo then Min(|bytes|, 4096) else 0
      case SeekOp(to) => to
      case _ => PosAfter(kind, ops, done[..k])
  }

  lemma {:induction false} ExecSnoc(kind: Kind, ops: seq<seq<Op>>, s: State, sched: seq<nat>, b: nat)
    requires |s.fds| == |ops|
    ensures Exec(kind, ops, s, sched + [b]) == Step(kind, ops, Exec(kind, ops, s, sched), b)
    decreases |sched|
  {
    if sched == [] {
      assert (sched + [b])[1..] == [];
    } else {
      assert (sched + [b])[1..] == sched[1..] + [b];
      ExecSnoc(kind, ops, Step(kind, ops, s, sched[0]), sched[1..], b);
    }
  }

  /** The cell of a run holds its last write, and each descriptor stands where its replies say. */
  ghost predicate UpToDate(kind: Kind, ops: seq<seq<Op>>, log: seq<Op>, s: State) {
    && |s.fds| == |ops| && s.msg == LastMsg(kind, log)
    && forall b :: 0 <= b < |ops| ==>
         |s.fds[b].done| <= |ops[b]| && s.fds[b].pos == PosAfter(kind, ops[b], s.fds[b].done)
  }

  lemma StepUpToDate(kind: Kind, ops: seq<seq<Op>>, log: seq<Op>, s: State, b: nat)
    requires UpToDate(kind, ops, log, s)
    ensures UpToDate(kind, ops, log + NextOp(ops, s, b), Step(kind, ops, s, b))
  {
    if NextOp(ops, s, b) == [] {
      assert log + NextOp(ops, s, b) == log;
    } else {
      var op, done := ops[b][|s.fds[b].done|], s.fds[b].done;
      var t := Step(kind, ops, s, b);
      assert (log + [op])[..|log|] == log;
      assert t.fds[b].done[..|done|] == done;
      hide ReadCell;
      assert t.fds[b].pos == PosAfter(kind, ops[b], t.fds[b].done);
    }
  }

  lemma {:induction false} RunUpToDate(kind: Kind, ops: seq<seq<Op>>, s: State, sched: seq<nat>)
    requires UpToDate(kind, ops, [], s)
    ensures UpToDate(kind, ops, OpLog(kind, ops, s, sched), Exec(kind, ops, s, sched))
    decreases |sched|
  {
    if sched != [] {
      var before, b := sched[..|sched| - 1], sched[|sched| - 1];
      assert sched == before + [b];
      RunUpToDate(kind, ops, s, before);
      ExecSnoc(kind, ops, s, before, b);
      StepUpToDate(kind, ops, OpLog(kind, ops, s, before), Exec(kind, ops, s, before), b);
    }
  }

  /** Reply `k` of descriptor `b` is that of its operation `k` on the state of the run at that moment. */
  ghost predicate RepliedAt(kind: Kind, ops: seq<seq<Op>>, a: State, b: nat, k: nat, r: Reply) {
    && |a.fds| == |ops| && b < |ops| && k < |ops[b]| && |a.fds[b].done| == k
    && r == (if ops[b][k].SeekOp? then Sought(ops[b][k].to)
             else Apply(kind, a.msg, CallOf(ops[b][k], a.fds[b].pos)).1)
  }

  /** `n` is when descriptor `b` got its reply `k`. */
  lemma {:induction false} ReplyFrom(kind: Kind, ops: seq<seq<Op>>, s: State, sched: seq<nat>, b: nat, k: nat)
    returns (n: nat)
    requires |s.fds| == |ops| && b < |ops| && s.fds[b].done == []
    requires k < |Exec(kind, ops, s, sched).fds[b].done|
    ensures n < |sched| && sched[n] == b
    ensures RepliedAt(kind, ops, Exec(kind, ops, s, sched[..n]), b, k, Exec(kind, ops, s, sched).fds[b].done[k])
    ensures Exec(kind, ops, s, sched[..n]).fds[b].done == Exec(kind, ops, s, sched).fds[b].done[..k]
    decreases |sched|
  {
    var before, c := sched[..|sched| - 1], sched[|sched| - 1];
    assert sched == before + [c];
    ExecSnoc(kind, ops, s, before, c);
    var a, t := Exec(kind, ops, s, before), Exec(kind, ops, s, sched);
    hide ReadCell;
    if k < |a.fds[b].done| {
      n := ReplyFrom(kind, ops, s, before, b, k);
      assert before[..n] == sched[..n];
      assert a.fds[b].done[..k] == t.fds[b].done[..k] && a.fds[b].done[k] == t.fds[b].done[k];
    } else {
      n := |sched| - 1;
      assert c == b && |a.fds[b].done| == k;
      assert t.fds[b].done[..k] == a.fds[b].done;
    }
  }

  const FRESH := FineFd(0, [], Idle)

  /** A device just set up, and `n` descriptors just opened. */
  ghost predicate JustOpened(kind: Kind, s: FineState, n: nat) {
    && s.sh.len == 0 && !s.sh.ready && |s.sh.buf| == Capacity(kind)
    && s.lock == Free && |s.fds| == n && forall b :: 0 <= b < n ==> s.fds[b] == FRESH
  }

  /**
   What an operation answers when the cell holds `msg` and its descriptor stands at `pos`;
   a read answers with its part of the cell from there.
   */
  ghost predicate Answers(kind: Kind, op: Op, msg: seq<byte>, pos: int, r: Reply) {
    match op
    case ReadOp(count) => r == ReadCell(kind, msg, count, pos)
    case WriteOp(bytes) => r.ret == Min(|bytes|, if kind == Echo then 4096 else 256)
    case SeekOp(to) => r.ret == to
    case ClearOp => r.ret == 0
    case LenOp => r.ret == |msg|
    case PollOp => r.ret != 0 <==> msg != []
  }

  lemma RepliedMeans(kind: Kind, ops: seq<seq<Op>>, a: State, b: nat, k: nat, r: Reply)
    requires RepliedAt(kind, ops, a, b, k, r)
    ensures Answers(kind, ops[b][k], a.msg, a.fds[b].pos, r)
  {
    if !ops[b][k].SeekOp? {
      CallsMean(kind, a.msg, CallOf(ops[b][k], a.fds[b].pos));
    }
  }

  /** In a run of whole calls each reply is explained by the calls before it. */
  lemma RunAnswers(kind: Kind, ops: seq<seq<Op>>, s: State, sched: seq<nat>, b: nat, k: nat) returns (n: nat)
    requires UpToDate(kind, ops, [], s) && b < |ops| && s.fds[b].done == []
    requires k < |Exec(kind, ops, s, sched).fds[b].done|
    ensures n < |sched| && sched[n] == b && |Exec(kind, ops, s, sched[..n]).fds[b].done| == k
    ensures var done := Exec(kind, ops, s, sched).fds[b].done;
            && |done| <= |ops[b]|
            && Answers(kind, ops[b][k], LastMsg(kind, OpLog(kind, ops, s, sched[..n])),
                       PosAfter(kind, ops[b], done[..k]), done[k])
  {
    RunUpToDate(kind, ops, s, sched);
    n := ReplyFrom(kind, ops, s, sched, b, k);
    RunUpToDate(kind, ops, s, sched[..n]);
    RepliedMeans(kind, ops, Exec(kind, ops, s, sched[..n]), b, k, Exec(kind, ops, s, sched).fds[b].done[k]);
  }

  /**
   In every interleaving of single accesses each operation answers, from where its
   descriptor stands, with what the last committed write or clear left: a read never
   returns a mixture of two writes and nothing stale. `n` is when operation `k` got the
   mutex, among all calls that did.
   */
  lemma ReadsSeeTheLastWrite(kind: Kind, ops: seq<seq<Op>>, s: FineState, sched: seq<nat>, b: nat, k: nat)
    returns (n: nat)
    requires GoodOps(kind, ops) && JustOpened(kind, s, |ops|)
    requires b < |ops| && k < |FineExec(kind, ops, s, sched).fds[b].done|
    ensures FineInv(kind, ops, s) && n < |Committed(kind, ops, s, sched)| && Committed(kind, ops, s, sched)[n] == b
    ensures |Exec(kind, ops, Abs(kind, ops, s), Committed(kind, ops, s, sched)[..n]).fds[b].done| == k
    ensures var done := FineExec(kind, ops, s, sched).fds[b].done;
            var log := OpLog(kind, ops, Abs(kind, ops, s), Committed(kind, ops, s, sched)[..n]);
            && |done| <= |ops[b]|
            && Answers(kind, ops[b][k], LastMsg(kind, log), PosAfter(kind, ops[b], done[..k]), done[k])
  {
    var t := FineExec(kind, ops, s, sched);
    assert FineInv(kind, ops, s);
    FineRefines(kind, ops, s, sched);
    var s0, c := Abs(kind, ops, s), Committed(kind, ops, s, sched);
    assert UpToDate(kind, ops, [], s0);
    var a := Exec(kind, ops, s0, c);
    assert FdOk(kind, ops[b], t.sh, t.fds[b]) && a.fds[b] == AbsFd(kind, ops[b], t.sh, t.fds[b]);
    hide Answers, OpLog, Apply, HoldOk, FineInv;
    var done := t.fds[b].done;
    assert done <= a.fds[b].done;
    assert done[..k] == a.fds[b].done[..k] && done[k] == a.fds[b].done[k];
    n := RunAnswers(kind, ops, s0, c, b, k);
  }
}
