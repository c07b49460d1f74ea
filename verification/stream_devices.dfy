/** The echo and demo devices: a buffer with a length, changed in place. */
module StreamDevices {
  import opened Kernel
  import opened Bytes
  import opened StreamCell

  /** What a read put into a user buffer. */
  ghost predicate Delivered(was: seq<byte>, now: seq<byte>, bytes: seq<byte>) {
    |bytes| <= |was| && now == bytes + was[|bytes|..]
  }

  method CopyToUser(user: array<byte>, buf: array<byte>, from: nat, count: nat)
    requires user != buf && count <= user.Length && from + count <= buf.Length
    modifies user
    ensures Delivered(old(user[..]), user[..], buf[from..from + count])
  {
    forall j | 0 <= j < count {
      user[j] := buf[from + j];
    }
  }

  method CopyFromUser(buf: array<byte>, user: array<byte>, count: nat)
    requires user != buf && count <= user.Length && count <= buf.Length
    modifies buf
    ensures buf[..] == user[..count] + old(buf[count..])
  {
    forall j | 0 <= j < count {
      buf[j] := user[j];
    }
  }

  class EchoPriv {
    const buf: array<byte>
    var len: nat

    ghost predicate Valid()
      reads this
    {
      buf.Length == ECHO_BUF_SIZE && len <= ECHO_BUF_SIZE
    }

    /** The cell. */
    ghost function Msg(): seq<byte>
      requires Valid()
      reads this, buf
    {
      buf[..len]
    }

    constructor ()
      ensures Valid() && fresh(buf) && Msg() == []
    {
      buf := new byte[ECHO_BUF_SIZE](_ => 0);
      len := 0;
    }
  }

  /** echo_read. */
  method EchoRead(priv: EchoPriv?, user: array<byte>, count: nat, pos: int) returns (ret: int, newPos: int)
    requires priv != null ==> priv.Valid() && user != priv.buf
    requires count <= user.Length
    modifies user
    ensures priv == null ==> ret == -EINVAL && newPos == pos && user[..] == old(user[..])
    ensures priv != null ==>
              var r := ReadCell(Echo, priv.Msg(), count, pos);
              ret == r.ret && newPos == r.pos && Delivered(old(user[..]), user[..], r.bytes)
    ensures priv != null && 0 <= pos <= priv.len ==>
              ret == Min(count, priv.len - pos) && newPos == pos + ret && user[..ret] == priv.buf[pos..newPos]
  {
    newPos := pos;
    if priv == null || pos < 0 {
      return -EINVAL, newPos;
    }
    var avail := priv.len;
    if pos >= avail {
      return 0, newPos;
    }
    avail := avail - pos;
    var n := count;
    if n > avail {
      n := avail;
    }
    assert ReadCell(Echo, priv.Msg(), count, pos).bytes == priv.buf[pos..pos + n];
    CopyToUser(user, priv.buf, pos, n);
    newPos := pos + n;
    ret := n;
  }

  /** echo_write. */
  method EchoWrite(priv: EchoPriv?, user: array<byte>, count: nat, pos: int) returns (ret: int, newPos: int)
    requires priv != null ==> priv.Valid() && user != priv.buf
    requires count <= user.Length
    modifies if priv == null then {} else {priv}
    modifies if priv == null then {} else {priv.buf}
    ensures priv == null ==> ret == -EINVAL && newPos == pos
    ensures priv != null ==> priv.Valid() && ret == newPos == Min(count, 4096) && priv.Msg() == user[..ret]
    ensures priv != null ==>
              (priv.Msg(), Reply(ret, [], newPos)) == Apply(Echo, old(priv.Msg()), Write(user[..count], pos))
  {
    newPos := pos;
    if priv == null {
      return -EINVAL, newPos;
    }
    var n := count;
    if n > ECHO_BUF_SIZE {
      n := ECHO_BUF_SIZE;
    }
    CopyFromUser(priv.buf, user, n);
    assert priv.buf[..n] == user[..n] == user[..count][..n];
    priv.len := n;
    newPos := n;
    ret := n;
  }

  class DemoPriv {
    const buf: array<byte>
    var len: nat
    var dataReady: bool

    ghost predicate Valid()
      reads this
    {
      buf.Length == DEMO_BUF_SIZE && len <= DEMO_BUF_SIZE && (!dataReady ==> len == 0)
    }

    /** The cell. */
    ghost function Msg(): seq<byte>
      requires Valid()
      reads this, buf
    {
      buf[..len]
    }

    constructor ()
      ensures Valid() && fresh(buf) && Msg() == []
    {
      buf := new byte[DEMO_BUF_SIZE](_ => 0);
      len, dataReady := 0, false;
    }
  }

  /** The position as demo_read compares it with the length: converted to an unsigned 64-bit number. */
  function AsUnsigned(pos: int): nat {
    pos % 0x1_0000_0000_0000_0000
  }

  /** demo_read; loff_t is 64 bits wide. */
  method DemoRead(priv: DemoPriv?, user: array<byte>, count: nat, pos: int) returns (ret: int, newPos: int)
    requires priv != null ==> priv.Valid() && user != priv.buf
    requires count <= user.Length && -0x8000_0000_0000_0000 <= pos < 0x8000_0000_0000_0000
    modifies user
    ensures priv == null ==> ret == -EINVAL && newPos == pos && user[..] == old(user[..])
    ensures priv != null ==>
              var r := ReadCell(Demo, priv.Msg(), count, pos);
              ret == r.ret && newPos == r.pos && Delivered(old(user[..]), user[..], r.bytes)
    ensures priv != null && 0 <= pos <= priv.len ==>
              ret == Min(count, priv.len - pos) && newPos == pos + ret && user[..ret] == priv.buf[pos..newPos]
  {
    newPos := pos;
    if priv == null {
      return -EINVAL, newPos;
    }
    if !priv.dataReady || priv.len == 0 {
      return 0, newPos;
    }
    if AsUnsigned(pos) >= priv.len {
      return 0, newPos;
    }
    var n := count;
    if n > priv.len - pos {
      n := priv.len - pos;
    }
    assert ReadCell(Demo, priv.Msg(), count, pos).bytes == priv.buf[pos..pos + n];
    CopyToUser(user, priv.buf, pos, n);
    newPos := pos + n;
    ret := n;
  }

  /** demo_write. */
  method DemoWrite(priv: DemoPriv?, user: array<byte>, count: nat, pos: int) returns (ret: int, newPos: int)
    requires priv != null ==> priv.Valid() && user != priv.buf
    requires count <= user.Length
    modifies if priv == null then {} else {priv}
    modifies if priv == null then {} else {priv.buf}
    ensures priv == null ==> ret == -EINVAL && newPos == pos
    ensures priv != null ==> priv.Valid() && ret == Min(count, 256) && newPos == 0 && priv.Msg() == user[..ret]
    ensures priv != null ==>
              (priv.Msg(), Reply(ret, [], newPos)) == Apply(Demo, old(priv.Msg()), Write(user[..count], pos))
  {
    newPos := pos;
    if priv == null {
      return -EINVAL, newPos;
    }
    var n := count;
    if n > DEMO_BUF_SIZE {
      n := DEMO_BUF_SIZE;
    }
    CopyFromUser(priv.buf, user, n);
    assert priv.buf[..n] == user[..n] == user[..count][..n];
    priv.len := n;
    priv.dataReady := true;
    newPos := 0;
    ret := n;
  }

  datatype PollMask = PollErr | PollMask(readable: bool, writable: bool)

  /** demo_poll: readable exactly when a read from the start would return bytes. */
  method DemoPoll(priv: DemoPriv?) returns (mask: PollMask)
    requires priv != null ==> priv.Valid()
    ensures priv == null <==> mask == PollErr
    ensures priv != null ==>
              && mask.writable
              && forall count: nat :: count > 0 ==> (mask.readable <==> ReadCell(Demo, priv.Msg(), count, 0).ret > 0)
  {
    if priv == null {
      return PollErr;
    }
    var readable := false;
    if priv.dataReady && priv.len != 0 {
      readable := true;
    }
    mask := PollMask(readable, true);
  }

  /** demo_ioctl_get_len; `len` is what is copied to the user. */
  method DemoGetLen(priv: DemoPriv?) returns (ret: int, len: nat)
    requires priv != null ==> priv.Valid()
    ensures priv == null ==> ret == -EINVAL
    ensures priv != null ==> ret == 0 && len == |priv.Msg()|
  {
    if priv == null {
      return -EINVAL, 0;
    }
    len := priv.len;
    ret := 0;
  }

  /** demo_ioctl_clear. */
  method DemoClear(priv: DemoPriv?) returns (ret: int)
    requires priv != null ==> priv.Valid()
    modifies if priv == null then {} else {priv}
    ensures priv == null ==> ret == -EINVAL
    ensures priv != null ==> ret == 0 && priv.Valid() && priv.Msg() == []
  {
    if priv == null {
      return -EINVAL;
    }
    priv.len := 0;
    priv.dataReady := false;
    ret := 0;
  }

  // ----- A reader that reads to the end -----

  /** Read until a read returns 0, with chunks of any positive sizes. */
  method EchoReadToEnd(priv: EchoPriv, chunk: nat -> nat) returns (out: seq<byte>, pos: int)
    requires priv.Valid() && forall k :: chunk(k) > 0
    ensures out == priv.Msg() && pos == |out|
  {
    out, pos := [], 0;
    var k, ret := 0, 1;
    while ret > 0
      invariant 0 <= pos <= priv.len && out == priv.buf[..pos]
      invariant ret <= 0 ==> pos == priv.len
      decreases priv.len - pos, ret
    {
      var user := new byte[chunk(k)](_ => 0);
      ghost var at := pos;
      ret, pos := EchoRead(priv, user, chunk(k), pos);
      assert at < priv.len ==> user[..ret] == priv.buf[at..pos];
      if ret > 0 {
        out := out + user[..ret];
      }
      k := k + 1;
    }
  }

  method DemoReadToEnd(priv: DemoPriv, chunk: nat -> nat) returns (out: seq<byte>, pos: int)
    requires priv.Valid() && forall k :: chunk(k) > 0
    ensures out == priv.Msg() && pos == |out|
  {
    out, pos := [], 0;
    var k, ret := 0, 1;
    while ret > 0
      invariant 0 <= pos <= priv.len && out == priv.buf[..pos]
      invariant ret <= 0 ==> pos == priv.len
      decreases priv.len - pos, ret
    {
      var user := new byte[chunk(k)](_ => 0);
      ghost var at := pos;
      ret, pos := DemoRead(priv, user, chunk(k), pos);
      assert at < priv.len ==> user[..ret] == priv.buf[at..pos];
      if ret > 0 {
        out := out + user[..ret];
      }
      k := k + 1;
    }
  }
}
