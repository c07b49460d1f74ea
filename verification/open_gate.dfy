/**
 The open/remove protocol of the character framework, one step per line of code.

 Any number of file descriptors run the open and release paths, any number of data
 operations run on the open ones, and one thread runs unregister. A schedule is an
 arbitrary sequence of actions; an action that cannot happen in a state is skipped, so
 the states reached by schedules are exactly the states reached by interleavings.
 The model covers one registration: `opens` starts at 0 and is not reset.
 */
module OpenGate {

  /** The next thing a file descriptor does; the numbers are lines of nv_char.c. */
  datatype FdPc =
    | Check1      // 58: first test of `removing`
    | TryGet      // 61-62: try_module_get
    | Check2      // 65: second test of `removing`
    | PutBack     // 66: module_put after a failed second test
    | Inc         // 70: atomic_inc(&opens)
    | OpenCall    // 98: the driver's open callback is running
    | Live        // open() returned 0
    | ReleaseCall // 119: the driver's release callback is running
    | Dec         // 78: atomic_dec_and_test(&opens)
    | Wake        // 79: wake_up_all
    | Put         // 81: module_put
    | Gone        // open() failed or release() returned

  /** A descriptor, with how often it took and put a module reference. */
  datatype Fd = Fd(pc: FdPc, gets: nat, puts: nat)

  /** A data operation (read, write, ioctl, poll, ...) on an open descriptor. */
  datatype OpPc = OpCheck | OpCall
  datatype Op = Op(fd: nat, pc: OpPc)

  /** The next thing the unregister thread does. */
  datatype UnregPc =
    | AtFlag         // 747: removing = true
    | AtSlot         // 750-753: clear the table slot and the debugfs directory
    | AtNode         // 755-759: destroy the device node
    | AtFirstTest    // 761: the test before any sleeping
    | AtPrepare      // 761: queue on release_wq
    | AtTest         // 761: the test while queued
    | Asleep         // 761: schedule_timeout
    | AtLastTest     // 761: the test after the timer fired
    | AtCdevDel(drained: bool)    // 768
    | AtDone(drained: bool)       // 769
    | Finished(drained: bool)

  /** What does not change during a registration. */
  datatype Config = Config(owner: bool, hasOpen: bool, hasRelease: bool)

  /**
   The fields the threads share: `refs` counts the references to the owner module held by
   the framework, `queued` says that unregister is queued and has not been woken.
   */
  datatype Shared = Shared(removing: bool, opens: int, refs: int, queued: bool)

  datatype State = State(sh: Shared, fds: map<nat, Fd>, ops: map<nat, Op>, unreg: UnregPc)

  const INIT := State(Shared(false, 0, 0, false), map[], map[], AtFlag)

  /**
   `RunFd` and `RunOp` execute the next line of a descriptor or of an operation; `choice`
   resolves what the line leaves to the outside: whether the module is alive, whether the
   driver's open succeeds, whether the driver implements the operation.
   */
  datatype Action =
    | Start(f: nat)
    | RunFd(f: nat, choice: bool)
    | OpEnter(o: nat, f: nat)
    | RunOp(o: nat, choice: bool)
    | UnregLine
    | TimerFires

  /** The next line of a descriptor: its effect on itself and on the shared fields. */
  function FdCode(c: Config, fd: Fd, sh: Shared, choice: bool): (Fd, Shared) {
    match fd.pc
    case Check1 => (fd.(pc := if sh.removing then Gone else TryGet), sh)
    case TryGet =>
      if !c.owner || !choice then (fd.(pc := Gone), sh)
      else (Fd(Check2, fd.gets + 1, fd.puts), sh.(refs := sh.refs + 1))
    case Check2 => (fd.(pc := if sh.removing then PutBack else Inc), sh)
    case PutBack => (Fd(Gone, fd.gets, fd.puts + 1), sh.(refs := sh.refs - 1))
    case Inc => (fd.(pc := if c.hasOpen then OpenCall else Live), sh.(opens := sh.opens + 1))
    case OpenCall => (fd.(pc := if choice then Live else Dec), sh)
    case Live => (fd.(pc := if c.hasRelease then ReleaseCall else Dec), sh)
    case ReleaseCall => (fd.(pc := Dec), sh)
    case Dec => (fd.(pc := if sh.opens - 1 == 0 then Wake else Put), sh.(opens := sh.opens - 1))
    case Wake => (fd.(pc := Put), sh.(queued := false))
    case Put => (Fd(Gone, fd.gets, fd.puts + 1), sh.(refs := sh.refs - 1))
    case Gone => (fd, sh)
  }

  /** The next line of unregister. */
  function UnregCode(u: UnregPc, sh: Shared): (UnregPc, Shared) {
    match u
    case AtFlag => (AtSlot, sh.(removing := true))
    case AtSlot => (AtNode, sh)
    case AtNode => (AtFirstTest, sh)
    case AtFirstTest => (if sh.opens == 0 then AtCdevDel(true) else AtPrepare, sh)
    case AtPrepare => (AtTest, sh.(queued := true))
    case AtTest => if sh.opens == 0 then (AtCdevDel(true), sh.(queued := false)) else (Asleep, sh)
    case Asleep => (if sh.queued then Asleep else AtPrepare, sh)
    case AtLastTest => (AtCdevDel(sh.opens == 0), sh.(queued := false))
    case AtCdevDel(d) => (AtDone(d), sh)
    case AtDone(d) => (Finished(d), sh)
    case Finished(_) => (u, sh)
  }

  predicate FdAt(s: State, f: nat, pc: FdPc) {
    f in s.fds && s.fds[f].pc == pc
  }

  /** The VFS calls release when the last user of the file is gone. */
  predicate CanRun(s: State, f: nat) {
    && f in s.fds
    && s.fds[f].pc != Gone
    && (s.fds[f].pc == Live ==> forall o :: o in s.ops ==> s.ops[o].fd != f)
  }

  function RunFdStep(c: Config, s: State, f: nat, choice: bool): State
    requires CanRun(s, f)
  {
    var (fd, sh) := FdCode(c, s.fds[f], s.sh, choice);
    s.(fds := s.fds[f := fd], sh := sh)
  }

  /** Data operations test `removing` once, at entry, and then run the driver's callback. */
  function RunOpStep(s: State, o: nat, choice: bool): State
    requires o in s.ops
  {
    if s.ops[o].pc == OpCheck && !s.sh.removing && choice then s.(ops := s.ops[o := Op(s.ops[o].fd, OpCall)])
    else s.(ops := s.ops - {o})
  }

  /** The effect of one action; an action that is not enabled changes nothing. */
  function Step(c: Config, s: State, a: Action): State {
    match a
    case Start(f) => if f in s.fds then s else s.(fds := s.fds[f := Fd(Check1, 0, 0)])
    case RunFd(f, choice) => if CanRun(s, f) then RunFdStep(c, s, f, choice) else s
    case OpEnter(o, f) => if o in s.ops || !FdAt(s, f, Live) then s else s.(ops := s.ops[o := Op(f, OpCheck)])
    case RunOp(o, choice) => if o in s.ops then RunOpStep(s, o, choice) else s
    case UnregLine => var (u, sh) := UnregCode(s.unreg, s.sh); s.(unreg := u, sh := sh)
    case TimerFires => if s.unreg == Asleep then s.(unreg := AtLastTest) else s
  }

  function Exec(c: Config, s: State, sched: seq<Action>): State
    decreases |sched|
  {
    if sched == [] then s else Exec(c, Step(c, s, sched[0]), sched[1..])
  }

  lemma {:induction false} ExecAppend(c: Config, s: State, a: seq<Action>, b: seq<Action>)
    ensures Exec(c, s, a + b) == Exec(c, Exec(c, s, a), b)
    decreases |a|
  {
    if a == [] {
      assert a + b == b;
    } else {
      assert (a + b)[1..] == a[1..] + b;
      ExecAppend(c, Step(c, s, a[0]), a[1..], b);
    }
  }

  lemma ExecOne(c: Config, s: State, a: Action)
    ensures Exec(c, s, [a]) == Step(c, s, a)
  {
    assert [a][1..] == [];
  }

  // ----- The invariant -----

  /** Sets of places on the open and release paths. */
  datatype Group =
    | BeforeInc   // holding a reference, not yet counted in `opens`
    | Counted     // counted in `opens`
    | AfterDec    // no longer counted, reference not yet put
    | Holding     // any of the above
    | Committed   // past the second test of `removing`, not yet decremented
    | Incrementing
    | Waking

  predicate InGroup(pc: FdPc, g: Group) {
    match g
    case BeforeInc => pc.Check2? || pc.PutBack? || pc.Inc?
    case Counted => pc.OpenCall? || pc.Live? || pc.ReleaseCall? || pc.Dec?
    case AfterDec => pc.Wake? || pc.Put?
    case Holding => !pc.Check1? && !pc.TryGet? && !pc.Gone?
    case Committed => pc.Inc? || pc.OpenCall? || pc.Live? || pc.ReleaseCall? || pc.Dec?
    case Incrementing => pc.Inc?
    case Waking => pc.Wake?
  }

  function At(fds: map<nat, Fd>, g: Group): set<nat> {
    set f | f in fds && InGroup(fds[f].pc, g)
  }

  function One(b: bool): int {
    if b then 1 else 0
  }

  lemma Recount(fds: map<nat, Fd>, f: nat, fd: Fd, g: Group)
    ensures |At(fds[f := fd], g)| ==
            |At(fds, g)| - One(f in fds && InGroup(fds[f].pc, g)) + One(InGroup(fd.pc, g))
  {
    var before, after := At(fds, g), At(fds[f := fd], g);
    if InGroup(fd.pc, g) {
      assert after == before + {f};
    } else {
      assert after == before - {f};
    }
  }

  /** A descriptor holds a reference exactly while it has taken one and not put it. */
  predicate Balanced(fd: Fd) {
    && fd.puts <= fd.gets <= 1
    && fd.gets == fd.puts + (if InGroup(fd.pc, Holding) then 1 else 0)
    && (fd.pc.Check1? || fd.pc.TryGet? ==> fd.gets == 0)
  }

  /** What one line of a descriptor keeps. */
  lemma FdCodeKeeps(c: Config, fd: Fd, sh: Shared, choice: bool)
    requires Balanced(fd)
    ensures var (fd', sh') := FdCode(c, fd, sh, choice);
            && Balanced(fd')
            && sh'.removing == sh.removing
            && sh'.opens == sh.opens - One(InGroup(fd.pc, Counted)) + One(InGroup(fd'.pc, Counted))
            && sh'.refs == sh.refs - One(InGroup(fd.pc, Holding)) + One(InGroup(fd'.pc, Holding))
            && (sh'.queued ==> sh.queued && fd.pc != Wake)
            && (sh'.opens == 0 && sh.opens != 0 ==> fd.pc == Inc || fd'.pc == Wake)
  {}

  /** With `removing` set, no line leads past the second test. */
  lemma FdCodeStaysOut(c: Config, fd: Fd, sh: Shared, choice: bool)
    requires sh.removing
    ensures var (fd', sh') := FdCode(c, fd, sh, choice);
            && sh'.removing
            && (InGroup(fd'.pc, Committed) ==> InGroup(fd.pc, Committed))
            && (fd'.pc == Inc ==> fd.pc == Inc)
  {}

  ghost predicate OpsOnLive(s: State) {
    forall o :: o in s.ops ==> FdAt(s, s.ops[o].fd, Live)
  }

  ghost predicate WakePending(fds: map<nat, Fd>) {
    exists f :: f in fds && fds[f].pc == Wake
  }

  ghost predicate Inv(s: State) {
    && s.sh.opens == |At(s.fds, Counted)|
    && s.sh.refs == |At(s.fds, Holding)|
    && (forall f :: f in s.fds ==> Balanced(s.fds[f]))
    && OpsOnLive(s)
    && (s.sh.removing <==> s.unreg != AtFlag)
    && (s.unreg == Asleep && s.sh.queued && s.sh.opens == 0 ==> WakePending(s.fds))
  }

  lemma RunFdKeepsWake(c: Config, s: State, f: nat, choice: bool)
    requires Inv(s) && CanRun(s, f)
    ensures var t := RunFdStep(c, s, f, choice);
            t.unreg == Asleep && t.sh.queued && t.sh.opens == 0 ==> WakePending(t.fds)
  {
    var t := RunFdStep(c, s, f, choice);
    FdCodeKeeps(c, s.fds[f], s.sh, choice);
    if t.unreg == Asleep && t.sh.queued && t.sh.opens == 0 {
      if s.sh.opens == 0 {
        var w :| w in s.fds && s.fds[w].pc == Wake;
        assert w != f && t.fds[w].pc == Wake;
      } else {
        assert s.fds[f].pc != Inc;
        assert t.fds[f].pc == Wake;
      }
    }
  }

  lemma RunFdKeepsInv(c: Config, s: State, f: nat, choice: bool)
    requires Inv(s) && CanRun(s, f)
    ensures Inv(RunFdStep(c, s, f, choice))
  {
    var t := RunFdStep(c, s, f, choice);
    FdCodeKeeps(c, s.fds[f], s.sh, choice);
    Recount(s.fds, f, t.fds[f], Counted);
    Recount(s.fds, f, t.fds[f], Holding);
    RunFdKeepsWake(c, s, f, choice);
  }

  lemma StartKeepsInv(s: State, f: nat)
    requires Inv(s) && f !in s.fds
    ensures Inv(s.(fds := s.fds[f := Fd(Check1, 0, 0)]))
  {
    var t := s.(fds := s.fds[f := Fd(Check1, 0, 0)]);
    Recount(s.fds, f, t.fds[f], Counted);
    Recount(s.fds, f, t.fds[f], Holding);
    if WakePending(s.fds) {
      var w :| w in s.fds && s.fds[w].pc == Wake;
      assert t.fds[w].pc == Wake;
    }
  }

  lemma StepKeepsInv(c: Config, s: State, a: Action)
    requires Inv(s)
    ensures Inv(Step(c, s, a))
  {
    match a
    case Start(f) => if f !in s.fds { StartKeepsInv(s, f); }
    case RunFd(f, choice) => if CanRun(s, f) { RunFdKeepsInv(c, s, f, choice); }
    case OpEnter(_, _) =>
    case RunOp(_, _) =>
    case UnregLine =>
    case TimerFires =>
  }

  lemma {:induction false} ExecKeepsInv(c: Config, s: State, sched: seq<Action>)
    requires Inv(s)
    ensures Inv(Exec(c, s, sched))
    decreases |sched|
  {
    if sched != [] {
      StepKeepsInv(c, s, sched[0]);
      ExecKeepsInv(c, Step(c, s, sched[0]), sched[1..]);
    }
  }

  /** The state a registration reaches under a schedule. */
  function Reach(c: Config, sched: seq<Action>): State {
    Exec(c, INIT, sched)
  }

  lemma ReachInv(c: Config, sched: seq<Action>)
    ensures Inv(Reach(c, sched))
  {
    assert At(INIT.fds, Counted) == {} && At(INIT.fds, Holding) == {};
    ExecKeepsInv(c, INIT, sched);
  }

  // ----- Reference accounting -----

  lemma HoldingPartition(fds: map<nat, Fd>)
    ensures |At(fds, Holding)| == |At(fds, Counted)| + |At(fds, BeforeInc)| + |At(fds, AfterDec)|
  {
    var b, m, a := At(fds, BeforeInc), At(fds, Counted), At(fds, AfterDec);
    assert At(fds, Holding) == m + b + a;
    assert |m + b| == |m| + |b|;
  }

  /** Every reference is accounted for, and every reference taken is put exactly once. */
  lemma RefsAccountedFor(c: Config, sched: seq<Action>)
    ensures var s := Reach(c, sched);
            && 0 <= s.sh.opens
            && s.sh.refs == s.sh.opens + |At(s.fds, BeforeInc)| + |At(s.fds, AfterDec)|
            && (forall f :: f in s.fds ==> s.fds[f].puts <= s.fds[f].gets <= 1)
            && (forall f :: f in s.fds && s.fds[f].pc == Gone ==> s.fds[f].puts == s.fds[f].gets)
  {
    ReachInv(c, sched);
    HoldingPartition(Reach(c, sched).fds);
  }

  // ----- Driver callbacks -----

  /** No callback of the driver is running. */
  ghost predicate Quiet(s: State) {
    && (forall f :: f in s.fds ==> s.fds[f].pc != OpenCall && s.fds[f].pc != ReleaseCall)
    && (forall o :: o in s.ops ==> s.ops[o].pc != OpCall)
  }

  lemma ZeroIsQuiet(s: State)
    requires Inv(s) && s.sh.opens == 0
    ensures Quiet(s)
  {
    assert At(s.fds, Counted) == {};
    forall f | f in s.fds
      ensures !InGroup(s.fds[f].pc, Counted)
    {
      assert f !in At(s.fds, Counted);
    }
  }

  lemma NoOpensNoCallbacks(c: Config, sched: seq<Action>)
    ensures Reach(c, sched).sh.opens == 0 ==> Quiet(Reach(c, sched))
  {
    ReachInv(c, sched);
    if Reach(c, sched).sh.opens == 0 {
      ZeroIsQuiet(Reach(c, sched));
    }
  }

  function InDriver(s: State): set<nat> {
    set o | o in s.ops && s.ops[o].pc == OpCall
  }

  lemma RemovingStep(c: Config, s: State, a: Action)
    requires Inv(s) && s.sh.removing
    ensures var t := Step(c, s, a);
            && t.sh.removing
            && At(t.fds, Committed) <= At(s.fds, Committed)
            && At(t.fds, Incrementing) <= At(s.fds, Incrementing)
            && InDriver(t) <= InDriver(s)
  {
    if a.RunFd? && CanRun(s, a.f) {
      FdCodeStaysOut(c, s.fds[a.f], s.sh, a.choice);
    }
  }

  /**
   After `removing` is set, no descriptor passes the second test any more and no data
   operation enters the driver any more: the sets only shrink, along every schedule.
   */
  lemma {:induction false} RemovingClosesTheGate(c: Config, s: State, sched: seq<Action>)
    requires Inv(s) && s.sh.removing
    ensures var t := Exec(c, s, sched);
            && t.sh.removing
            && At(t.fds, Committed) <= At(s.fds, Committed)
            && At(t.fds, Incrementing) <= At(s.fds, Incrementing)
            && InDriver(t) <= InDriver(s)
    decreases |sched|
  {
    if sched != [] {
      RemovingStep(c, s, sched[0]);
      StepKeepsInv(c, s, sched[0]);
      RemovingClosesTheGate(c, Step(c, s, sched[0]), sched[1..]);
    }
  }

  lemma CommittedPartition(fds: map<nat, Fd>)
    ensures |At(fds, Committed)| == |At(fds, Counted)| + |At(fds, Incrementing)|
  {
    var m, i := At(fds, Counted), At(fds, Incrementing);
    assert m !! i;
    assert At(fds, Committed) == m + i;
  }

  lemma SubsetSize(a: set<nat>, b: set<nat>)
    requires a <= b
    ensures |a| <= |b|
  {
    assert b == a + (b - a);
  }

  /** `opens` plus the openers about to increment never grows once `removing` is set. */
  lemma PendingNeverGrows(c: Config, before: seq<Action>, after: seq<Action>)
    requires Reach(c, before).sh.removing
    ensures var s, t := Reach(c, before), Reach(c, before + after);
            t.sh.opens + |At(t.fds, Incrementing)| <= s.sh.opens + |At(s.fds, Incrementing)|
  {
    var s, t := Reach(c, before), Reach(c, before + after);
    ExecAppend(c, INIT, before, after);
    ReachInv(c, before);
    ReachInv(c, before + after);
    RemovingClosesTheGate(c, s, after);
    CommittedPartition(s.fds);
    CommittedPartition(t.fds);
    SubsetSize(At(t.fds, Committed), At(s.fds, Committed));
  }

  // ----- The drain -----

  lemma ZeroStays(c: Config, s: State, sched: seq<Action>)
    requires Inv(s) && s.sh.removing && s.sh.opens == 0 && At(s.fds, Incrementing) == {}
    ensures var t := Exec(c, s, sched);
            t.sh.opens == 0 && Quiet(t)
  {
    CommittedPartition(s.fds);
    RemovingClosesTheGate(c, s, sched);
    ExecKeepsInv(c, s, sched);
    CommittedPartition(Exec(c, s, sched).fds);
    ZeroIsQuiet(Exec(c, s, sched));
  }

  /**
   A drain that sees `opens == 0` has seen the last of them if and only if no opener
   stands between its second test of `removing` and its increment.
   */
  lemma DrainIsFinalIff(c: Config, sched: seq<Action>)
    requires Reach(c, sched).sh.removing && Reach(c, sched).sh.opens == 0
    ensures var s := Reach(c, sched);
            (forall later :: Exec(c, s, later).sh.opens == 0) <==> At(s.fds, Incrementing) == {}
  {
    var s := Reach(c, sched);
    ReachInv(c, sched);
    if At(s.fds, Incrementing) == {} {
      forall later
        ensures Exec(c, s, later).sh.opens == 0
      {
        ZeroStays(c, s, later);
      }
    } else {
      var f :| f in At(s.fds, Incrementing);
      ExecOne(c, s, RunFd(f, true));
      assert Exec(c, s, [RunFd(f, true)]).sh.opens == 1;
    }
  }

  /** A step that ends the wait by its condition leaves no callback running. */
  lemma DrainEndsQuiet(c: Config, sched: seq<Action>, a: Action)
    requires !Reach(c, sched).unreg.AtCdevDel?
    requires Step(c, Reach(c, sched), a).unreg == AtCdevDel(true)
    ensures var t := Step(c, Reach(c, sched), a); t.sh.removing && t.sh.opens == 0 && Quiet(t)
  {
    ReachInv(c, sched);
    StepKeepsInv(c, Reach(c, sched), a);
    ZeroIsQuiet(Step(c, Reach(c, sched), a));
  }

  function UnregLines(n: nat): seq<Action> {
    if n == 0 then [] else [UnregLine] + UnregLines(n - 1)
  }

  lemma RunLine(c: Config, s: State, n: nat, t: State, u: State)
    requires n != 0 && Step(c, s, UnregLine) == t && Exec(c, t, UnregLines(n - 1)) == u
    ensures Exec(c, s, UnregLines(n)) == u
  {
    assert UnregLines(n)[1..] == UnregLines(n - 1);
  }

  /** With nothing open, unregister runs through its six lines without sleeping. */
  lemma UnregRuns(c: Config, s: State)
    requires s.sh.opens == 0 && s.unreg == AtFlag
    ensures Exec(c, s, UnregLines(6)) == s.(sh := s.sh.(removing := true), unreg := Finished(true))
  {
    var r := s.(sh := s.sh.(removing := true));
    var u := r.(unreg := Finished(true));
    RunLine(c, r.(unreg := AtDone(true)), 1, u, u);
    RunLine(c, r.(unreg := AtCdevDel(true)), 2, r.(unreg := AtDone(true)), u);
    RunLine(c, r.(unreg := AtFirstTest), 3, r.(unreg := AtCdevDel(true)), u);
    RunLine(c, r.(unreg := AtNode), 4, r.(unreg := AtFirstTest), u);
    RunLine(c, r.(unreg := AtSlot), 5, r.(unreg := AtNode), u);
    RunLine(c, s, 6, r.(unreg := AtSlot), u);
  }

  const OPENER := [Start(0), RunFd(0, true)] + [RunFd(0, true), RunFd(0, true)]

  lemma OpenerStopsBeforeInc(c: Config)
    requires c.owner
    ensures Reach(c, OPENER) == INIT.(sh := INIT.sh.(refs := 1), fds := map[0 := Fd(Inc, 1, 0)])
  {
    var s1 := INIT.(fds := map[0 := Fd(Check1, 0, 0)]);
    var s2 := INIT.(fds := map[0 := Fd(TryGet, 0, 0)]);
    var s3 := INIT.(sh := INIT.sh.(refs := 1), fds := map[0 := Fd(Check2, 1, 0)]);
    ExecAppend(c, INIT, [Start(0), RunFd(0, true)], [RunFd(0, true), RunFd(0, true)]);
    Exec2(c, INIT, Start(0), RunFd(0, true), s1, s2);
    Exec2(c, s2, RunFd(0, true), RunFd(0, true), s3, s3.(fds := map[0 := Fd(Inc, 1, 0)]));
  }

  lemma Exec2(c: Config, s: State, a: Action, b: Action, t: State, u: State)
    requires Step(c, s, a) == t && Step(c, t, b) == u
    ensures Exec(c, s, [a, b]) == u
  {
    assert [a, b][1..] == [b];
    ExecOne(c, t, b);
  }

  /**
   The side condition is needed: an opener stopped before line 70 lets the drain end by
   its condition, and enters the driver after cdev_del.
   */
  lemma DrainCanEndTooEarly()
    ensures var c := Config(true, true, true);
            var s := Reach(c, OPENER + UnregLines(6));
            && s.unreg == Finished(true)
            && s.sh.opens == 0
            && !Quiet(Exec(c, s, [RunFd(0, true)]))
  {
    var c := Config(true, true, true);
    OpenerStopsBeforeInc(c);
    ExecAppend(c, INIT, OPENER, UnregLines(6));
    UnregRuns(c, Reach(c, OPENER));
    var s := Reach(c, OPENER + UnregLines(6));
    ExecOne(c, s, RunFd(0, true));
    assert Step(c, s, RunFd(0, true)).fds[0].pc == OpenCall;
  }

  /** No lost wake-up: while unregister sleeps unwoken with nothing open, a wake-up is on its way. */
  lemma NoLostWakeup(c: Config, sched: seq<Action>)
    ensures var s := Reach(c, sched);
            s.unreg == Asleep && s.sh.queued && s.sh.opens == 0 ==> At(s.fds, Waking) != {}
  {
    ReachInv(c, sched);
    var s := Reach(c, sched);
    if s.unreg == Asleep && s.sh.queued && s.sh.opens == 0 {
      var f :| f in s.fds && s.fds[f].pc == Wake;
      assert f in At(s.fds, Waking);
    }
  }
}
