/** The ioctl table: the loop that looks a command up, against the partial function it stands for. */
module IoctlTable {
  import opened Kernel
  import opened Bytes
  import opened StreamCell

  /** A handler takes the driver's state and the argument and answers with a new state and a result. */
  datatype Entry<!S> = Entry(cmd: bv32, handler: Option<(S, nat) -> (S, int)>, capable: int)

  /** What happened on the way: capability tests and handlers. */
  datatype Event<!S> = Asked(cap: int, granted: bool) | Ran(entry: Entry<S>)
  datatype Outcome<!S> = Outcome(priv: S, ret: int, events: seq<Event<S>>)

  // ----- The partial function -----

  /** `i` is the index of the first match. */
  ghost predicate IsFirst<S>(table: seq<Entry<S>>, cmd: bv32, i: nat) {
    i < |table| && table[i].cmd == cmd && forall j :: 0 <= j < i ==> table[j].cmd != cmd
  }

  /** The entry of the first match. */
  ghost function Lookup<S>(table: seq<Entry<S>>, cmd: bv32): (e: Option<Entry<S>>)
    ensures e.None? <==> forall i :: 0 <= i < |table| ==> table[i].cmd != cmd
    ensures e.Some? ==> exists i :: 0 <= i < |table| && table[i] == e.value && table[i].cmd == cmd
                                    && forall j :: 0 <= j < i ==> table[j].cmd != cmd
  {
    if table == [] then None
    else if table[0].cmd == cmd then Some(table[0])
    else
      var e := Lookup(table[1..], cmd);
      assert e.Some? ==> forall i :: 0 <= i < |table| - 1 && table[1..][i] == e.value ==> table[i + 1] == e.value;
      e
  }

  /** What running entry `e` does. */
  ghost function Serve<S>(e: Entry<S>, priv: S, arg: nat, allowed: int -> bool): Outcome<S> {
    var asked := if e.capable == 0 then [] else [Asked(e.capable, allowed(e.capable))];
    if e.capable != 0 && !allowed(e.capable) then Outcome(priv, -EPERM, asked)
    else if e.handler.None? then Outcome(priv, -ENOTTY, asked)
    else var (now, ret) := e.handler.value(priv, arg); Outcome(now, ret, asked + [Ran(e)])
  }

  ghost function Dispatched<S>(table: Option<seq<Entry<S>>>, cmd: bv32, priv: S, arg: nat, allowed: int -> bool)
    : Outcome<S>
  {
    if table.None? then Outcome(priv, -ENOTTY, [])
    else
      match Lookup(table.value, cmd)
      case None => Outcome(priv, -ENOTTY, [])
      case Some(e) => Serve(e, priv, arg, allowed)
  }

  // ----- The loop -----

  class Device<S> {
    var priv: S
    ghost var events: seq<Event<S>>

    constructor (priv: S)
      ensures this.priv == priv && events == []
    {
      this.priv, events := priv, [];
    }

    /** capable(); `allowed` are the capabilities of the caller. */
    method Capable(cap: int, allowed: int -> bool) returns (ok: bool)
      modifies this`events
      ensures ok == allowed(cap) && events == old(events) + [Asked(cap, ok)]
    {
      ok := allowed(cap);
      events := events + [Asked(cap, ok)];
    }

    /** nv_char_ioctl_dispatch. */
    method Dispatch(cmd: bv32, arg: nat, allowed: int -> bool, table: Option<seq<Entry<S>>>) returns (ret: int)
      modifies this
      ensures var d := Dispatched(table, cmd, old(priv), arg, allowed);
              priv == d.priv && ret == d.ret && events == old(events) + d.events
      ensures table.None? || (forall e :: e in table.value ==> e.cmd != cmd) ==>
                ret == -ENOTTY && priv == old(priv) && events == old(events)
      ensures forall i: nat :: table.Some? && IsFirst(table.value, cmd, i) ==>
                var e := table.value[i];
                if e.capable != 0 && !allowed(e.capable) then
                  ret == -EPERM && priv == old(priv) && events == old(events) + [Asked(e.capable, false)]
                else if e.handler.Some? then
                  (priv, ret) == e.handler.value(old(priv), arg) && events != [] && events[|events| - 1] == Ran(e)
                else
                  ret == -ENOTTY && priv == old(priv)
    {
      if table.None? {
        return -ENOTTY;
      }
      var entries := table.value;
      for i := 0 to |entries|
        invariant priv == old(priv) && events == old(events)
        invariant forall j :: 0 <= j < i ==> entries[j].cmd != cmd
      {
        if entries[i].cmd != cmd {
          continue;
        }
        if entries[i].capable != 0 {
          var ok := Capable(entries[i].capable, allowed);
          if !ok {
            return -EPERM;
          }
        }
        if entries[i].handler.Some? {
          var (now, r) := entries[i].handler.value(priv, arg);
          priv := now;
          events := events + [Ran(entries[i])];
          return r;
        }
        return -ENOTTY;
      }
      ret := -ENOTTY;
    }
  }

  // ----- What the table promises -----

  /** At most one handler runs, last, for this command, and only if its capability test passed. */
  lemma HandlerOnlyAfterTest<S>(table: Option<seq<Entry<S>>>, cmd: bv32, priv: S, arg: nat, allowed: int -> bool,
                                k: nat)
    requires k < |Dispatched(table, cmd, priv, arg, allowed).events|
    requires Dispatched(table, cmd, priv, arg, allowed).events[k].Ran?
    ensures var d := Dispatched(table, cmd, priv, arg, allowed);
            var e := d.events[k].entry;
            && k == |d.events| - 1 && (forall j :: 0 <= j < k ==> d.events[j].Asked?)
            && table.Some? && e in table.value && e.cmd == cmd && e.handler.Some?
            && (d.priv, d.ret) == e.handler.value(priv, arg)
            && (e.capable == 0 || (k == 1 && d.events[0] == Asked(e.capable, true) && allowed(e.capable)))
  {}

  /** Nothing runs and nothing is asked exactly when no entry matches or the match has neither test nor handler. */
  lemma NothingHappensIff<S>(table: seq<Entry<S>>, cmd: bv32, priv: S, arg: nat, allowed: int -> bool)
    ensures Dispatched(Some(table), cmd, priv, arg, allowed).events == []
            <==> var e := Lookup(table, cmd); e.None? || (e.value.capable == 0 && e.value.handler.None?)
    ensures Dispatched(Some(table), cmd, priv, arg, allowed).events == []
            ==> Dispatched(Some(table), cmd, priv, arg, allowed) == Outcome(priv, -ENOTTY, [])
  {}

  /**
   The first match decides: a refused capability gives -EPERM and nothing else happens; a
   handler whose test passed, or that needs none, answers; without a handler it is -ENOTTY.
   */
  lemma FirstMatchDecides<S>(table: seq<Entry<S>>, cmd: bv32, priv: S, arg: nat, allowed: int -> bool, i: nat)
    requires IsFirst(table, cmd, i)
    ensures var o, e := Dispatched(Some(table), cmd, priv, arg, allowed), table[i];
            if e.capable != 0 && !allowed(e.capable) then
              o == Outcome(priv, -EPERM, [Asked(e.capable, false)])
            else if e.handler.Some? then
              (o.priv, o.ret) == e.handler.value(priv, arg) && o.events != [] && o.events[|o.events| - 1] == Ran(e)
            else
              o.priv == priv && o.ret == -ENOTTY && forall k :: 0 <= k < |o.events| ==> o.events[k].Asked?
  {
    assert table[i].cmd == cmd;
  }

  ghost predicate DistinctCmds<S>(table: seq<Entry<S>>) {
    forall i, j :: 0 <= i < j < |table| ==> table[i].cmd != table[j].cmd
  }

  /** With distinct commands the order of the table does not matter. */
  lemma OrderDoesNotMatter<S>(a: seq<Entry<S>>, b: seq<Entry<S>>, cmd: bv32)
    requires DistinctCmds(a) && multiset(a) == multiset(b)
    ensures Lookup(a, cmd) == Lookup(b, cmd)
    ensures forall priv, arg, allowed ::
              Dispatched(Some(a), cmd, priv, arg, allowed) == Dispatched(Some(b), cmd, priv, arg, allowed)
  {
    forall i | 0 <= i < |b|
      ensures b[i] in a
    {
      assert b[i] in multiset(b);
    }
    forall i | 0 <= i < |a|
      ensures a[i] in b
    {
      assert a[i] in multiset(a);
    }
  }

  // ----- The table of the demo device -----

  const DEMO_GET_LEN: bv32 := 0x8004_7601
  const DEMO_CLEAR: bv32 := 0x7602

  /** The stored message, if the device has private state, and the integer the caller's argument points to. */
  datatype Demo = Demo(cell: Option<seq<byte>>, out: int)

  /** demo_ioctl_get_len. */
  function GetLenHandler(d: Demo, arg: nat): (Demo, int) {
    if d.cell.None? then (d, -EINVAL) else (d.(out := Apply(Kind.Demo, d.cell.value, GetLen).1.ret), 0)
  }

  /** demo_ioctl_clear. */
  function ClearHandler(d: Demo, arg: nat): (Demo, int) {
    if d.cell.None? then (d, -EINVAL) else (d.(cell := Some(Apply(Kind.Demo, d.cell.value, Clear).0)), 0)
  }

  function DemoTable(): seq<Entry<Demo>> {
    [Entry(DEMO_GET_LEN, Some(GetLenHandler), 0), Entry(DEMO_CLEAR, Some(ClearHandler), 0)]
  }

  /**
   The demo device knows two commands: one reports the length, one empties the message;
   without private state they fail.
   */
  lemma DemoIoctl(d: Demo, cmd: bv32, arg: nat, allowed: int -> bool)
    ensures var o := Dispatched(Some(DemoTable()), cmd, d, arg, allowed);
            && (cmd != DEMO_GET_LEN && cmd != DEMO_CLEAR ==> o.priv == d && o.ret == -ENOTTY)
            && ((cmd == DEMO_GET_LEN || cmd == DEMO_CLEAR) && d.cell.None? ==> o.priv == d && o.ret == -EINVAL)
            && (cmd == DEMO_GET_LEN && d.cell.Some? ==> o.priv == d.(out := |d.cell.value|) && o.ret == 0)
            && (cmd == DEMO_CLEAR && d.cell.Some? ==> o.priv == d.(cell := Some([])) && o.ret == 0)
  {
    var t := DemoTable();
    assert t[0].cmd == DEMO_GET_LEN && t[1].cmd == DEMO_CLEAR;
    assert Lookup(t, cmd).Some? ==> Lookup(t, cmd).value == (if cmd == DEMO_GET_LEN then t[0] else t[1]);
  }
}
