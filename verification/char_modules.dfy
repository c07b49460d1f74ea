/** The echo and demo modules, whose init and exit have the same ladder. */
module CharModules {
  import opened Kernel
  import opened CharRegistry

  lemma {:induction false} TableResNull(tab: seq<Dev?>)
    requires forall i :: 0 <= i < |tab| ==> tab[i] == null
    ensures TableRes(tab) == {}
  {
    if tab != [] {
      TableResNull(tab[..|tab| - 1]);
    }
  }

  /** What a loaded module holds. */
  ghost function ModuleRes(drv: Driver, dev: Dev, buf: nat): set<Resource> {
    {Buffer(buf)} + DriverRes(drv) + DevRes(dev)
  }

  ghost predicate Loaded(core: Core, drv: Driver, dev: Dev, buf: nat)
    reads core, drv, drv.devices, dev, core.drivers, core.devs, core.miscs, core.Tables()
  {
    && core.Valid() && drv in core.drivers && dev in core.devs && Buffer(buf) in core.live
    && drv.devices != null && drv.devices.Length == 1 && drv.devices[0] == dev && drv.devt != 0
  }

  /** What the kernel answers on the way. */
  datatype ModuleCalls = ModuleCalls(buf: bool, drv: DriverCalls, dev: DevCalls)

  /** What init returns: the error of the first call that fails. */
  function ModuleError(calls: ModuleCalls): (e: int)
    ensures e == 0 <==> calls.buf && DriverError(calls.drv) == 0 && DevError(calls.dev) == 0
    ensures !calls.buf ==> e == -12
    ensures calls.buf && DriverError(calls.drv) != 0 ==> e == DriverError(calls.drv)
  {
    if !calls.buf then -ENOMEM
    else if DriverError(calls.drv) != 0 then DriverError(calls.drv) else DevError(calls.dev)
  }

  /** Register the device; on failure unregister the driver. */
  method RegisterOrUnwind(core: Core, drv: Driver, dev: Dev, calls: DevCalls) returns (ret: int)
    requires core.Valid() && drv in core.drivers && dev in core.devs && Node(dev) !in core.leaked
    requires drv.devices != null && drv.devices.Length == 1 && drv.devices[0] == null
    requires !dev.registered && drv.count == 1 && drv.devt != 0
    modifies core`live, core`leaked, core`root, core`refcnt, core`users, core`skewed, drv, drv.devices, dev
    ensures core.Valid() && ret == DevError(calls) && core.leaked == old(core.leaked)
    ensures ret == 0 ==>
              && drv.devices == old(drv.devices) && drv.devices[0] == dev && drv.devt == old(drv.devt)
              && core.live == old(core.live) + DevRes(dev)
    ensures ret != 0 ==>
              && drv.devices == null && !dev.registered
              && core.live == old(core.live) - DriverRes(drv)
  {
    hide Core.Valid, DevError;
    ret := core.RegisterDevice(drv, dev, true, 0, calls);
    if ret != 0 {
      assert drv.devices[..] == [null];
      TableResNull(drv.devices[..]);
      core.UnregisterDriver(drv);
    }
  }

  /** The resources a module will hold are free before it is loaded. */
  lemma FreeBefore(core: Core, drv: Driver, dev: Dev, buf: nat)
    requires core.Valid() && drv in core.drivers && dev in core.devs && Buffer(buf) !in core.live
    requires drv.devices == null && !dev.registered && Region(drv) !in core.leaked && Node(dev) !in core.leaked
    ensures core.live !! ModuleRes(drv, dev, buf)
  {
    core.DevFacts(dev);
    core.DriverFacts(drv);
  }

  /** echo_init and demo_init: their drivers leave the major to the kernel. */
  method ModuleInit(core: Core, drv: Driver, dev: Dev, buf: nat, calls: ModuleCalls) returns (ret: int)
    requires core.Valid() && drv in core.drivers && dev in core.devs && Buffer(buf) !in core.live
    requires drv.named && drv.owned && drv.count == 1 && drv.major == 0 && drv.devices == null && !dev.registered
    requires Region(drv) !in core.leaked && Node(dev) !in core.leaked && Possible(calls.drv)
    modifies core`live, core`leaked, core`root, core`refcnt, core`users, core`skewed, drv, dev
    ensures core.Valid() && ret == ModuleError(calls) && core.leaked == old(core.leaked)
    ensures old(core.live) !! ModuleRes(drv, dev, buf)
    ensures ret == 0 ==>
              && Loaded(core, drv, dev, buf) && fresh(drv.devices)
              && core.live == old(core.live) + ModuleRes(drv, dev, buf)
    ensures ret != 0 ==> core.live == old(core.live) && drv.devices == null && !dev.registered
  {
    FreeBefore(core, drv, dev, buf);
    hide Core.Valid, TableRes, DriverError, DevError;
    core.Allocate(buf, calls.buf);
    if !calls.buf {
      return -ENOMEM;
    }
    ret := core.RegisterDriver(drv, calls.drv);
    if ret == 0 {
      assert drv.devt != 0 by { core.DriverFacts(drv); }
      ret := RegisterOrUnwind(core, drv, dev, calls.dev);
    }
    if ret != 0 {
      core.Free(buf);
    }
  }

  /** Unregister the device, then its driver. */
  method Unload(core: Core, drv: Driver, dev: Dev, buf: nat)
    requires Loaded(core, drv, dev, buf)
    modifies core`live, core`leaked, core`root, core`refcnt, core`users, core`skewed, drv, drv.devices, dev
    ensures core.Valid() && drv.devices == null && !dev.registered && core.leaked == old(core.leaked)
    ensures DevRes(dev) + DriverRes(drv) <= old(core.live)
    ensures core.live == old(core.live) - DevRes(dev) - DriverRes(drv)
  {
    core.DriverFacts(drv);
    hide Core.Valid, TableRes;
    core.UnregisterDevice(dev, true);
    assert drv.devices[..] == [null];
    TableResNull(drv.devices[..]);
    core.UnregisterDriver(drv);
  }

  /** echo_exit and demo_exit: the driver's loop revisits the slot the device has left. */
  method ModuleExit(core: Core, drv: Driver, dev: Dev, buf: nat)
    requires Loaded(core, drv, dev, buf)
    modifies core`live, core`leaked, core`root, core`refcnt, core`users, core`skewed, drv, drv.devices, dev
    ensures core.Valid() && drv.devices == null && !dev.registered && core.leaked == old(core.leaked)
    ensures ModuleRes(drv, dev, buf) <= old(core.live)
    ensures core.live == old(core.live) - ModuleRes(drv, dev, buf)
  {
    Unload(core, drv, dev, buf);
    core.Free(buf);
  }

  /** Init followed by exit leaves the ledger as it was, whichever kernel call failed. */
  method InitThenExit(core: Core, drv: Driver, dev: Dev, buf: nat, calls: ModuleCalls) returns (ret: int)
    requires core.Valid() && drv in core.drivers && dev in core.devs && Buffer(buf) !in core.live
    requires drv.named && drv.owned && drv.count == 1 && drv.major == 0 && drv.devices == null && !dev.registered
    requires Region(drv) !in core.leaked && Node(dev) !in core.leaked && Possible(calls.drv)
    modifies core`live, core`leaked, core`root, core`refcnt, core`users, core`skewed, drv, dev
    ensures core.Valid() && core.live == old(core.live) && core.leaked == old(core.leaked)
    ensures ret == ModuleError(calls)
  {
    ret := ModuleInit(core, drv, dev, buf, calls);
    if ret == 0 {
      ModuleExit(core, drv, dev, buf);
    }
  }
}
