/** The loopback UART: characters from the transmit FIFO to the receive buffer. */
module UartLoopback {
  import opened Kernel
  import opened Bytes

  /** The two ends of a port, and how many characters found the receive buffer full. */
  datatype Line = Line(fifo: seq<byte>, flip: seq<byte>, lost: nat)

  /** uart_insert_char; `room` says whether the receive buffer takes the character. */
  function Insert(l: Line, ch: byte, room: bool): Line {
    if room then l.(flip := l.flip + [ch]) else l.(lost := l.lost + 1)
  }

  /**
   The drain loop from its test number `t`: `stop(t)` is what that test sees, `room(t)`
   whether the character fits.
   */
  function Drain(l: Line, stop: nat -> bool, room: nat -> bool, t: nat): Line
    decreases |l.fifo|
  {
    if stop(t) || l.fifo == [] then l
    else Drain(Insert(l.(fifo := l.fifo[1..]), l.fifo[0], room(t)), stop, room, t + 1)
  }

  /** Inserting `bytes` one by one. */
  function InsertAll(l: Line, bytes: seq<byte>, room: nat -> bool, t: nat): Line
    decreases |bytes|
  {
    if bytes == [] then l else InsertAll(Insert(l, bytes[0], room(t)), bytes[1..], room, t + 1)
  }

  class Port {
    var attached: bool    // the port has a state
    var fifo: seq<byte>
    var flip: seq<byte>
    var lost: nat

    ghost function Val(): Line
      reads this
    {
      Line(fifo, flip, lost)
    }

    constructor ()
      ensures !attached && Val() == Line([], [], 0)
    {
      attached, fifo, flip, lost := false, [], [], 0;
    }

    method InsertChar(ch: byte, room: bool)
      modifies this`flip, this`lost
      ensures Val() == Insert(old(Val()), ch, room)
    {
      if room {
        flip := flip + [ch];
      } else {
        lost := lost + 1;
      }
    }

    /** demo_start_tx. */
    method StartTx(stop: nat -> bool, room: nat -> bool)
      modifies this`fifo, this`flip, this`lost
      ensures Val() == if attached then Drain(old(Val()), stop, room, 0) else old(Val())
      ensures attached ==>
                exists k: nat :: k <= |old(fifo)| && fifo == old(fifo)[k..]
                                 && (forall j :: 0 <= j < k ==> !stop(j)) && (k < |old(fifo)| ==> stop(k))
                                 && flip == old(flip) + Kept(old(fifo)[..k], room, 0)
                                 && |flip| + lost == |old(flip)| + old(lost) + k
    {
      if !attached {
        return;
      }
      var t := 0;
      while !stop(t) && fifo != []
        invariant Drain(Val(), stop, room, t) == Drain(old(Val()), stop, room, 0)
        decreases |fifo|
      {
        var ch := fifo[0];
        fifo := fifo[1..];
        InsertChar(ch, room(t));
        t := t + 1;
      }
      DrainMeans(old(Val()), stop, room);
    }
  }

  /** nv_uart_push_rx. */
  method PushRx(np: Port?, buf: seq<byte>, isNull: bool, count: int, room: nat -> bool) returns (ret: int)
    requires count <= |buf|
    modifies if np == null then {} else {np}
    ensures np == null || isNull || count <= 0 ==> ret == -EINVAL
    ensures np != null && !isNull && count > 0 ==> ret == if old(np.attached) then count else -ENODEV
    ensures np != null ==> np.attached == old(np.attached)
    ensures np != null && ret > 0 ==> np.flip == old(np.flip) + Kept(buf[..count], room, 0) && np.fifo == old(np.fifo)
    ensures np != null ==>
              np.Val() == if ret > 0 then InsertAll(old(np.Val()), buf[..count], room, 0) else old(np.Val())
  {
    if np == null || isNull || count <= 0 {
      return -EINVAL;
    }
    if !np.attached {
      return -ENODEV;
    }
    var pushed := 0;
    for i := 0 to count
      invariant pushed == i && np.attached
      invariant InsertAll(np.Val(), buf[i..count], room, i) == InsertAll(old(np.Val()), buf[..count], room, 0)
    {
      assert buf[i..count][0] == buf[i] && buf[i..count][1..] == buf[i + 1..count];
      np.InsertChar(buf[i], room(i));
      pushed := pushed + 1;
    }
    ret := pushed;
    InsertAllKeeps(old(np.Val()), buf[..count], room, 0);
    InsertAllAppends(old(np.Val()), buf[..count], room, 0);
  }

  /** Every character goes into the buffer or is counted as lost; with none lost, `bytes` are appended exactly. */
  lemma {:induction false} InsertAllAppends(l: Line, bytes: seq<byte>, room: nat -> bool, t: nat)
    ensures var m := InsertAll(l, bytes, room, t);
            && m.fifo == l.fifo && m.lost >= l.lost
            && |m.flip| + m.lost == |l.flip| + l.lost + |bytes|
            && (m.flip == l.flip + bytes <==> m.lost == l.lost)
            && (m.lost == l.lost <==> forall k :: t <= k < t + |bytes| ==> room(k))
    decreases |bytes|
  {
    if bytes == [] {
      assert l.flip + bytes == l.flip;
    } else {
      var next, m := Insert(l, bytes[0], room(t)), InsertAll(l, bytes, room, t);
      InsertAllAppends(next, bytes[1..], room, t + 1);
      assert l.flip + [bytes[0]] + bytes[1..] == l.flip + bytes;
    }
  }

  /** The characters of `bytes` for which there was room, in order. */
  function Kept(bytes: seq<byte>, room: nat -> bool, t: nat): seq<byte>
    decreases |bytes|
  {
    if bytes == [] then []
    else (if room(t) then [bytes[0]] else []) + Kept(bytes[1..], room, t + 1)
  }

  /** What was delivered stays, and exactly the characters with room are added, in order. */
  lemma {:induction false} InsertAllKeeps(l: Line, bytes: seq<byte>, room: nat -> bool, t: nat)
    ensures InsertAll(l, bytes, room, t).flip == l.flip + Kept(bytes, room, t)
    decreases |bytes|
  {
    if bytes != [] {
      InsertAllKeeps(Insert(l, bytes[0], room(t)), bytes[1..], room, t + 1);
      var rest := Kept(bytes[1..], room, t + 1);
      assert l.flip + [bytes[0]] + rest == l.flip + ([bytes[0]] + rest);
      assert [] + rest == rest;
    }
  }

  /** The drain takes `k` characters, one after the other, and ends with the FIFO empty or at a test that saw a stop. */
  lemma {:induction false} DrainTakes(l: Line, stop: nat -> bool, room: nat -> bool, t: nat) returns (k: nat)
    ensures k <= |l.fifo|
    ensures Drain(l, stop, room, t) == InsertAll(l.(fifo := l.fifo[k..]), l.fifo[..k], room, t)
    ensures forall j :: t <= j < t + k ==> !stop(j)
    ensures k < |l.fifo| ==> stop(t + k)
    decreases |l.fifo|
  {
    if stop(t) || l.fifo == [] {
      k := 0;
      assert l.fifo[0..] == l.fifo;
    } else {
      var next := Insert(l.(fifo := l.fifo[1..]), l.fifo[0], room(t));
      var n := DrainTakes(next, stop, room, t + 1);
      k := n + 1;
      assert l.fifo[k..] == l.fifo[1..][n..];
      assert l.fifo[..k][1..] == l.fifo[1..][..n];
      assert InsertAll(l.(fifo := l.fifo[k..]), l.fifo[..k], room, t)
             == InsertAll(Insert(l.(fifo := l.fifo[k..]), l.fifo[0], room(t)), l.fifo[1..][..n], room, t + 1);
    }
  }

  /** What a drain leaves, without the loop. */
  lemma DrainMeans(l: Line, stop: nat -> bool, room: nat -> bool)
    ensures var m := Drain(l, stop, room, 0);
            exists k: nat :: k <= |l.fifo| && m.fifo == l.fifo[k..]
                             && (forall j :: 0 <= j < k ==> !stop(j)) && (k < |l.fifo| ==> stop(k))
                             && m.flip == l.flip + Kept(l.fifo[..k], room, 0)
                             && |m.flip| + m.lost == |l.flip| + l.lost + k
  {
    var k := DrainTakes(l, stop, room, 0);
    InsertAllKeeps(l.(fifo := l.fifo[k..]), l.fifo[..k], room, 0);
    InsertAllAppends(l.(fifo := l.fifo[k..]), l.fifo[..k], room, 0);
  }

  // ----- Any run of the port -----

  /** The user writes, the core starts transmission; stops and restarts are what `stop` sees. */
  datatype Event = Written(bytes: seq<byte>) | Started(attached: bool, stop: nat -> bool, room: nat -> bool)

  function After(l: Line, ev: Event): Line {
    match ev
    case Written(bytes) => l.(fifo := l.fifo + bytes)
    case Started(attached, stop, room) => if attached then Drain(l, stop, room, 0) else l
  }

  function Run(l: Line, evs: seq<Event>): Line
    decreases |evs|
  {
    if evs == [] then l else Run(After(l, evs[0]), evs[1..])
  }

  function AllWritten(evs: seq<Event>): seq<byte> {
    if evs == [] then []
    else (if evs[0].Written? then evs[0].bytes else []) + AllWritten(evs[1..])
  }

  lemma StepConserves(l: Line, ev: Event)
    ensures var m, w := After(l, ev), if ev.Written? then ev.bytes else [];
            && m.lost >= l.lost
            && |m.flip| + |m.fifo| + m.lost == |l.flip| + |l.fifo| + l.lost + |w|
            && (m.lost == l.lost ==> m.flip + m.fifo == l.flip + l.fifo + w)
  {
    match ev
    case Written(bytes) =>
      assert l.flip + (l.fifo + bytes) == l.flip + l.fifo + bytes;
    case Started(attached, stop, room) =>
      if attached {
        var k := DrainTakes(l, stop, room, 0);
        InsertAllAppends(l.(fifo := l.fifo[k..]), l.fifo[..k], room, 0);
        assert l.fifo[..k] + l.fifo[k..] == l.fifo;
        assert l.flip + l.fifo[..k] + l.fifo[k..] == l.flip + l.fifo;
      }
      assert l.flip + l.fifo + [] == l.flip + l.fifo;
  }

  /**
   In every run, what was handed over followed by what still waits is all that was
   written, in order, if and only if nothing was lost.
   */
  lemma {:induction false} RunConserves(l: Line, evs: seq<Event>)
    ensures var m, w := Run(l, evs), AllWritten(evs);
            && m.lost >= l.lost
            && |m.flip| + |m.fifo| + m.lost == |l.flip| + |l.fifo| + l.lost + |w|
            && (m.flip + m.fifo == l.flip + l.fifo + w <==> m.lost == l.lost)
    decreases |evs|
  {
    if evs == [] {
      assert l.flip + l.fifo + [] == l.flip + l.fifo;
    } else {
      var next, w := After(l, evs[0]), if evs[0].Written? then evs[0].bytes else [];
      StepConserves(l, evs[0]);
      RunConserves(next, evs[1..]);
      assert l.flip + l.fifo + w + AllWritten(evs[1..]) == l.flip + l.fifo + AllWritten(evs);
    }
  }
}
