/**
 The methods of nv_char.c that run the open/remove protocol, line by line.

 `Others` lets the other threads run an arbitrary schedule between two lines, so what a
 method promises holds whatever they do. Each line is matched with the action of the
 protocol it executes; `log` is the schedule of the whole registration, so every theorem
 about schedules applies to the states these methods reach.
 */
module CharDevice {
  import opened Kernel
  import opened OpenGate

  /** The schedule never runs descriptor `f`. */
  predicate SparesFd(f: nat, sched: seq<Action>) {
    forall a :: a in sched ==> !(a.RunFd? && a.f == f)
  }

  /** The schedule never runs data operation `o`. */
  predicate SparesOp(o: nat, sched: seq<Action>) {
    forall a :: a in sched ==> !(a.RunOp? && a.o == o)
  }

  /** The schedule never runs unregister. */
  predicate SparesUnreg(sched: seq<Action>) {
    forall a :: a in sched ==> !a.UnregLine? && !a.TimerFires?
  }

  lemma {:induction false} SparedFd(c: Config, s: State, f: nat, sched: seq<Action>)
    requires SparesFd(f, sched) && f in s.fds
    ensures var t := Exec(c, s, sched); f in t.fds && t.fds[f] == s.fds[f]
    decreases |sched|
  {
    if sched != [] {
      assert sched[0] in sched;
      SparedFd(c, Step(c, s, sched[0]), f, sched[1..]);
    }
  }

  lemma {:induction false} SparedOp(c: Config, s: State, o: nat, sched: seq<Action>)
    requires SparesOp(o, sched) && o in s.ops
    ensures var t := Exec(c, s, sched); o in t.ops && t.ops[o] == s.ops[o]
    decreases |sched|
  {
    if sched != [] {
      assert sched[0] in sched;
      SparedOp(c, Step(c, s, sched[0]), o, sched[1..]);
    }
  }

  lemma {:induction false} SparedUnreg(c: Config, s: State, sched: seq<Action>)
    requires SparesUnreg(sched)
    ensures Exec(c, s, sched).unreg == s.unreg
    decreases |sched|
  {
    if sched != [] {
      assert sched[0] in sched;
      SparedUnreg(c, Step(c, s, sched[0]), sched[1..]);
    }
  }

  /** Descriptor `f` was at `pc` at some moment of the schedule, after the first `from` actions. */
  ghost predicate Passed(c: Config, log: seq<Action>, from: nat, f: nat, pc: FdPc) {
    exists k :: from <= k <= |log| && FdAt(Reach(c, log[..k]), f, pc)
  }

  /** Data operation `o` was inside the driver. */
  ghost predicate InsideDriver(c: Config, log: seq<Action>, from: nat, o: nat) {
    exists k :: from <= k <= |log| && o in InDriver(Reach(c, log[..k]))
  }

  /** What is so now was so at some moment of every longer schedule. */
  lemma PassedSince(c: Config, now: seq<Action>, log: seq<Action>, from: nat, f: nat, pc: FdPc)
    requires from <= |now| && now <= log && FdAt(Reach(c, now), f, pc)
    ensures Passed(c, log, from, f, pc)
  {
    assert log[..|now|] == now;
  }

  lemma InsideSince(c: Config, now: seq<Action>, log: seq<Action>, from: nat, o: nat)
    requires from <= |now| && now <= log && o in InDriver(Reach(c, now))
    ensures InsideDriver(c, log, from, o)
  {
    assert log[..|now|] == now;
  }

  lemma PassedLater(c: Config, now: seq<Action>, log: seq<Action>, from: nat, f: nat, pc: FdPc)
    requires Passed(c, now, from, f, pc) && now <= log
    ensures forall early: nat :: early <= from ==> Passed(c, log, early, f, pc)
  {
    var k :| from <= k <= |now| && FdAt(Reach(c, now[..k]), f, pc);
    assert log[..k] == now[..k];
  }

  class Device {
    const c: Config
    var removing: bool
    var opens: int
    var refs: int
    var queued: bool
    var world: State               // the whole protocol state, the other threads included
    ghost var log: seq<Action>     // how the registration got there

    ghost predicate Valid()
      reads this
    {
      world == Reach(c, log) && world.sh == Shared(removing, opens, refs, queued)
    }

    constructor (c: Config)
      ensures Valid() && this.c == c && log == []
    {
      this.c := c;
      removing, opens, refs, queued := false, 0, 0, false;
      world, log := INIT, [];
    }

    /** The other threads run `env`. */
    method Others(env: seq<Action>)
      requires Valid()
      modifies this
      ensures Valid() && log == old(log) + env && world == Exec(c, old(world), env)
    {
      ExecAppend(c, INIT, log, env);
      world, log := Exec(c, world, env), log + env;
      removing, opens, refs, queued := world.sh.removing, world.sh.opens, world.sh.refs, world.sh.queued;
    }

    /** The line of code just executed was the protocol's action `a`. */
    method Line(a: Action)
      requires world == Reach(c, log)
      requires Step(c, world, a).sh == Shared(removing, opens, refs, queued)
      modifies this`world, this`log
      ensures Valid() && log == old(log) + [a] && world == Step(c, old(world), a)
    {
      ExecAppend(c, INIT, log, [a]);
      ExecOne(c, world, a);
      world, log := Step(c, world, a), log + [a];
    }

    /** The line just executed was the next line of descriptor `f`, which stood at `was`. */
    method FdLine(f: nat, was: Fd, choice: bool)
      requires world == Reach(c, log) && CanRun(world, f) && world.fds[f] == was
      requires FdCode(c, was, world.sh, choice).1 == Shared(removing, opens, refs, queued)
      modifies this`world, this`log
      ensures Valid() && old(log) <= log
      ensures f in world.fds && world.fds[f] == FdCode(c, was, old(world.sh), choice).0
    {
      Line(RunFd(f, choice));
    }

    /** The other threads run; descriptor `f` stays where it is. */
    method OthersAround(f: nat, env: seq<Action>)
      requires Valid() && f in world.fds && SparesFd(f, env)
      modifies this
      ensures Valid() && old(log) <= log && (old(removing) ==> removing)
      ensures f in world.fds && world.fds[f] == old(world.fds[f])
    {
      SparedFd(c, world, f, env);
      RemovingStays(env);
      Others(env);
    }

    lemma RemovingStays(env: seq<Action>)
      requires Valid()
      ensures removing ==> Exec(c, world, env).sh.removing
    {
      ReachInv(c, log);
      if removing {
        RemovingClosesTheGate(c, world, env);
      }
    }

    lemma WhereItStands(f: nat)
      requires Valid() && f in world.fds
      ensures var pc := world.fds[f].pc;
              && (pc == Check1 ==> world.fds[f] == Fd(Check1, 0, 0))
              && (InGroup(pc, Holding) ==> world.fds[f] == Fd(pc, 1, 0))
    {
      ReachInv(c, log);
      assert Balanced(world.fds[f]);
    }

    /** Lines 65-71: test `removing` again, and count the opener or give the reference back. */
    method RecheckAndCount(f: nat, env: nat -> seq<Action>) returns (ret: int)
      requires Valid() && f in world.fds && world.fds[f] == Fd(Check2, 1, 0)
      requires forall k :: SparesFd(f, env(k))
      modifies this
      ensures Valid() && old(log) <= log && f in world.fds
      ensures ret == (if old(removing) then -ENODEV else 0) && (old(removing) ==> removing)
      ensures world.fds[f] == if ret == 0 then Fd(if c.hasOpen then OpenCall else Live, 1, 0) else Fd(Gone, 1, 1)
    {
      var stop := removing;
      FdLine(f, Fd(Check2, 1, 0), true);
      OthersAround(f, env(2));
      if stop {
        refs := refs - 1;
        FdLine(f, Fd(PutBack, 1, 0), true);
        return -ENODEV;
      }
      opens := opens + 1;
      FdLine(f, Fd(Inc, 1, 0), true);
      return 0;
    }

    /** nv_char_acquire_open. */
    method AcquireOpen(f: nat, alive: bool, env: nat -> seq<Action>) returns (ret: int)
      requires Valid() && FdAt(world, f, Check1)
      requires forall k :: SparesFd(f, env(k))
      modifies this
      ensures Valid() && old(log) <= log && f in world.fds
      ensures ret == 0 || ret == -ENODEV
      ensures ret == 0 ==> c.owner && alive
      ensures !removing ==> ret == if c.owner && alive then 0 else -ENODEV
      ensures ret == 0 ==> world.fds[f] == Fd(if c.hasOpen then OpenCall else Live, 1, 0)
      ensures ret != 0 ==> world.fds[f].pc == Gone && world.fds[f].puts == world.fds[f].gets
      ensures old(removing) ==> ret == -ENODEV && world.fds[f].gets == 0
    {
      WhereItStands(f);
      var stop := removing;
      FdLine(f, Fd(Check1, 0, 0), true);
      if stop {
        return -ENODEV;
      }
      OthersAround(f, env(0));
      var got := c.owner && alive;
      if got {
        refs := refs + 1;
      }
      FdLine(f, Fd(TryGet, 0, 0), alive);
      if !got {
        return -ENODEV;
      }
      OthersAround(f, env(1));
      ret := RecheckAndCount(f, env);
    }

    /** The decrement and test of line 78; the releaser that took the count to zero has to wake the drain. */
    method DropCount(f: nat, env: nat -> seq<Action>) returns (last: bool)
      requires Valid() && FdAt(world, f, Dec) && world.fds[f] == Fd(Dec, 1, 0)
      requires forall k :: SparesFd(f, env(k))
      modifies this
      ensures Valid() && old(log) <= log && f in world.fds
      ensures last <==> old(opens) == 1
      ensures old(removing) ==> removing
      ensures world.fds[f] == Fd(if last then Wake else Put, 1, 0)
    {
      opens := opens - 1;
      last := opens == 0;
      FdLine(f, Fd(Dec, 1, 0), true);
      OthersAround(f, env(0));
    }

    /** nv_char_release_open. */
    method ReleaseOpen(f: nat, env: nat -> seq<Action>)
      requires Valid() && FdAt(world, f, Dec)
      requires forall k :: SparesFd(f, env(k))
      modifies this
      ensures Valid() && old(log) <= log && f in world.fds && (old(removing) ==> removing)
      ensures world.fds[f] == Fd(Gone, 1, 1)
    {
      WhereItStands(f);
      var last := DropCount(f, env);
      if last {
        queued := false;
        FdLine(f, Fd(Wake, 1, 0), true);
        OthersAround(f, env(1));
      }
      refs := refs - 1;
      FdLine(f, Fd(Put, 1, 0), true);
    }

    /** Line 98: the driver's open callback runs and returns `openRet`. */
    method RunOpenCallback(f: nat, openRet: int, env: seq<Action>)
      requires Valid() && f in world.fds && world.fds[f] == Fd(OpenCall, 1, 0) && SparesFd(f, env)
      modifies this
      ensures Valid() && old(log) <= log && f in world.fds && (old(removing) ==> removing)
      ensures world.fds[f] == Fd(if openRet == 0 then Live else Dec, 1, 0)
      ensures Passed(c, log, |old(log)|, f, OpenCall)
    {
      OthersAround(f, env);
      ghost var now := log;
      FdLine(f, Fd(OpenCall, 1, 0), openRet == 0);
      PassedSince(c, now, log, |old(log)|, f, OpenCall);
    }

    /** nv_char_open; `openRet` is what the driver's open callback returns. */
    method Open(f: nat, alive: bool, openRet: int, env: nat -> seq<Action>) returns (ret: int)
      requires Valid() && FdAt(world, f, Check1)
      requires forall k :: SparesFd(f, env(k))
      modifies this
      ensures Valid() && old(log) <= log && f in world.fds
      ensures ret == 0 || ret == -ENODEV || (c.hasOpen && ret == openRet)
      ensures ret == 0 ==> c.owner && alive
      ensures !removing ==>
                ret == if !c.owner || !alive then -ENODEV else if c.hasOpen then openRet else 0
      ensures c.hasOpen && (ret != -ENODEV || (!removing && c.owner && alive)) ==>
                Passed(c, log, |old(log)|, f, OpenCall)
      ensures ret == 0 ==> world.fds[f] == Fd(Live, 1, 0) && (c.hasOpen ==> openRet == 0)
      ensures ret != 0 ==> world.fds[f].pc == Gone && world.fds[f].puts == world.fds[f].gets
      ensures old(removing) ==> ret == -ENODEV && world.fds[f].gets == 0
    {
      ret := AcquireOpen(f, alive, env);
      if ret != 0 {
        return;
      }
      if c.hasOpen {
        ghost var acquired := log;
        RunOpenCallback(f, openRet, env(3));
        ghost var now := log;
        ret := openRet;
        if ret != 0 {
          OthersAround(f, env(4));
          ReleaseOpen(f, (k: nat) => env(k + 5));
        }
        PassedLater(c, now, log, |acquired|, f, OpenCall);
      }
    }

    /** nv_char_release; `releaseRet` is what the driver's release callback returns. */
    method Release(f: nat, releaseRet: int, env: nat -> seq<Action>) returns (ret: int)
      requires Valid() && FdAt(world, f, Live) && CanRun(world, f)
      requires forall k :: SparesFd(f, env(k))
      modifies this
      ensures Valid() && old(log) <= log && f in world.fds
      ensures world.fds[f] == Fd(Gone, 1, 1)
      ensures ret == if c.hasRelease then releaseRet else 0
      ensures c.hasRelease ==> Passed(c, log, |old(log)|, f, ReleaseCall)
    {
      ret := 0;
      WhereItStands(f);
      FdLine(f, Fd(Live, 1, 0), true);
      OthersAround(f, env(0));
      ghost var now := log;
      if c.hasRelease {
        ret := releaseRet;
        now := log;
        FdLine(f, Fd(ReleaseCall, 1, 0), true);
        OthersAround(f, env(1));
      }
      ReleaseOpen(f, (k: nat) => env(k + 2));
      if c.hasRelease {
        PassedSince(c, now, log, |old(log)|, f, ReleaseCall);
      }
    }

    /**
     A guarded file operation: test `removing`, then call the driver if it implements the
     operation; `result` is what the driver returns, `missing` what the framework returns
     in its place.
     */
    method DataOp(o: nat, f: nat, implemented: bool, result: int, missing: int, env: nat -> seq<Action>)
      returns (ret: int, ghost reached: bool)
      requires Valid() && FdAt(world, f, Live) && o !in world.ops
      requires forall k :: SparesOp(o, env(k))
      modifies this
      ensures Valid() && old(log) <= log && o !in world.ops
      ensures reached ==> implemented && ret == result && InsideDriver(c, log, |old(log)|, o)
      ensures !reached ==> (ret == -ENODEV && removing) || (ret == missing && !implemented)
      ensures old(removing) ==> !reached && ret == -ENODEV
    {
      ReachInv(c, log);
      Line(OpEnter(o, f));
      SparedOp(c, world, o, env(0));
      ReachInv(c, log);
      if removing {
        RemovingClosesTheGate(c, world, env(0));
      }
      Others(env(0));
      reached := false;
      var stop := removing;
      Line(RunOp(o, implemented));
      if stop {
        return -ENODEV, false;
      }
      if !implemented {
        return missing, false;
      }
      reached := true;
      FinishOp(o, env(1), |old(log)|);
      ret := result;
    }

    /** The driver's callback runs, and returns. */
    method FinishOp(o: nat, env: seq<Action>, ghost from: nat)
      requires Valid() && o in world.ops && world.ops[o].pc == OpCall && SparesOp(o, env) && from <= |log|
      modifies this
      ensures Valid() && old(log) <= log && o !in world.ops && InsideDriver(c, log, from, o)
    {
      ghost var now := log;
      assert o in InDriver(Reach(c, now));
      SparedOp(c, world, o, env);
      Others(env);
      Line(RunOp(o, true));
      InsideSince(c, now, log, from, o);
    }

    /** The line just executed was the next line of unregister, which stood at `was`. */
    method UnregAt(was: UnregPc)
      requires world == Reach(c, log) && world.unreg == was
      requires UnregCode(was, world.sh).1 == Shared(removing, opens, refs, queued)
      modifies this`world, this`log
      ensures Valid() && old(log) <= log
      ensures world.unreg == UnregCode(was, old(world.sh)).0
    {
      Line(UnregLine);
    }

    /** The other threads run; unregister stays where it is. */
    method OthersAroundUnreg(env: seq<Action>)
      requires Valid() && SparesUnreg(env)
      modifies this
      ensures Valid() && old(log) <= log && world.unreg == old(world.unreg)
    {
      SparedUnreg(c, world, env);
      Others(env);
    }

    /** One turn of wait_event: queue, then test. */
    method QueueAndTest(envA: seq<Action>, envB: seq<Action>) returns (drained: bool)
      requires Valid() && world.unreg == AtPrepare
      requires SparesUnreg(envA) && SparesUnreg(envB)
      modifies this
      ensures Valid() && old(log) <= log
      ensures world.unreg == if drained then AtCdevDel(true) else Asleep
      ensures drained ==> opens == 0
    {
      OthersAroundUnreg(envA);
      queued := true;
      UnregAt(AtPrepare);
      OthersAroundUnreg(envB);
      drained := opens == 0;
      if drained {
        queued := false;
      }
      UnregAt(AtTest);
    }

    /** Sleep until woken and test again, until the condition holds or the timer fires. */
    method SleepAndTest(rounds: nat, env: nat -> seq<Action>) returns (drained: bool, turns: nat)
      requires Valid() && world.unreg == Asleep
      requires forall k :: SparesUnreg(env(k))
      modifies this
      ensures Valid() && old(log) <= log
      ensures world.unreg == AtCdevDel(drained)
      ensures drained <==> opens == 0
      ensures turns <= rounds && (!drained ==> turns == rounds)
    {
      drained, turns := false, 0;
      while !drained && turns < rounds
        invariant Valid() && old(log) <= log && turns <= rounds
        invariant world.unreg == if drained then AtCdevDel(true) else Asleep
        invariant drained ==> opens == 0
      {
        OthersAroundUnreg(env(3 * turns));
        if !queued {
          UnregAt(Asleep);
          drained := QueueAndTest(env(3 * turns + 1), env(3 * turns + 2));
        }
        turns := turns + 1;
      }
      if !drained {
        OthersAroundUnreg(env(3 * turns));
        Line(TimerFires);
        OthersAroundUnreg(env(3 * turns + 1));
        drained := opens == 0;
        queued := false;
        UnregAt(AtLastTest);
      }
    }

    /** wait_event_timeout on `opens == 0`; the timer fires after `rounds` turns of sleeping. */
    method Drain(rounds: nat, env: nat -> seq<Action>) returns (drained: bool, turns: nat)
      requires Valid() && world.unreg == AtFirstTest
      requires forall k :: SparesUnreg(env(k))
      modifies this
      ensures Valid() && old(log) <= log
      ensures world.unreg == AtCdevDel(drained)
      ensures drained <==> opens == 0
      ensures turns <= rounds && (!drained ==> turns == rounds)
      ensures old(opens) == 0 ==> drained && turns == 0
    {
      drained, turns := opens == 0, 0;
      UnregAt(AtFirstTest);
      if !drained {
        drained := QueueAndTest(env(0), env(1));
        if !drained {
          drained, turns := SleepAndTest(rounds, (k: nat) => env(k + 2));
        }
      }
    }

    lemma DrainedForGood(seen: seq<Action>)
      requires Valid() && seen <= log
      requires Reach(c, seen).sh.removing && Reach(c, seen).sh.opens == 0
      ensures Quiet(Reach(c, seen))
      ensures At(Reach(c, seen).fds, Incrementing) == {} ==> opens == 0 && Quiet(world)
    {
      ReachInv(c, seen);
      ZeroIsQuiet(Reach(c, seen));
      if At(Reach(c, seen).fds, Incrementing) == {} {
        ZeroStays(c, Reach(c, seen), log[|seen|..]);
        ExecAppend(c, INIT, seen, log[|seen|..]);
        assert log == seen + log[|seen|..];
      }
    }

    /** Lines 747-759: everything before the wait. */
    method BeginRemoval(env: nat -> seq<Action>)
      requires Valid() && world.unreg == AtFlag
      requires forall k :: SparesUnreg(env(k))
      modifies this
      ensures Valid() && old(log) <= log && world.unreg == AtFirstTest
    {
      removing := true;
      UnregAt(AtFlag);
      OthersAroundUnreg(env(0));
      UnregAt(AtSlot);
      OthersAroundUnreg(env(1));
      UnregAt(AtNode);
      OthersAroundUnreg(env(2));
    }

    /** Lines 768-769. */
    method EndRemoval(drained: bool, env: seq<Action>)
      requires Valid() && world.unreg == AtCdevDel(drained) && SparesUnreg(env)
      modifies this
      ensures Valid() && old(log) <= log && removing && world.unreg == Finished(drained)
    {
      OthersAroundUnreg(env);
      UnregAt(AtCdevDel(drained));
      UnregAt(AtDone(drained));
      ReachInv(c, log);
    }

    /**
     nv_char_device_unregister. `seen` is the log when the wait ended: if it ended by its
     condition and no opener was before its increment, then nothing is open and no
     callback runs when unregister returns.
     */
    method Unregister(rounds: nat, env: nat -> seq<Action>)
      returns (drained: bool, turns: nat, ghost seen: seq<Action>)
      requires Valid() && world.unreg == AtFlag
      requires forall k :: SparesUnreg(env(k))
      modifies this
      ensures Valid() && old(log) <= seen <= log
      ensures removing && world.unreg == Finished(drained)
      ensures drained <==> Reach(c, seen).sh.opens == 0
      ensures turns <= rounds && (!drained ==> turns == rounds)
      ensures drained ==> Quiet(Reach(c, seen))
      ensures drained && At(Reach(c, seen).fds, Incrementing) == {} ==> opens == 0 && Quiet(world)
    {
      BeginRemoval(env);
      drained, turns := Drain(rounds, (k: nat) => env(k + 4));
      seen := log;
      ReachInv(c, seen);
      EndRemoval(drained, env(3));
      if drained {
        DrainedForGood(seen);
      }
    }
  }
}
