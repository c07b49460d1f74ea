/**
 Runs of the registry: which registrations leave every device in its own slot, and what
 follows for the debugfs directories.
 */
module CharRuns {
  import opened Kernel
  import opened CharRegistry

  /** A registration keeps the driver's devices in their own slots exactly if the slot it takes was free. */
  method RegisterSlot(core: Core, drv: Driver, dev: Dev, index: nat, calls: DevCalls) returns (ret: int)
    requires core.Valid() && drv in core.drivers && drv.devices != null && index < drv.devices.Length
    requires dev in core.devs && Node(dev) !in core.leaked
    modifies core`live, drv.devices, dev
    ensures core.Valid() && ret == if old(dev.registered) then -EBUSY else DevError(calls)
    ensures ret == 0 ==> core.TookSlot(dev) && dev.driver == drv && dev.index == index
    ensures ret == 0 ==> (dev.dir <==> core.root && calls.dir)
    ensures ret != 0 ==> drv.devices[..] == old(drv.devices[..]) && dev.registered == old(dev.registered)
    ensures ret == 0 && old(core.OwnSlots(drv)) ==> (core.OwnSlots(drv) <==> old(drv.devices[index]) == null)
  {
    core.DriverFacts(drv);
    ghost var housed := core.OwnSlots(drv);
    hide Core.Valid, Core.OwnSlots;
    ret := core.RegisterDevice(drv, dev, true, index, calls);
    if ret == 0 {
      assert core.TookSlot(dev);
      if housed {
        core.OwnSlotsAfter(dev);
      }
    }
  }

  // ----- Runs in which no device is displaced -----

  /** Every device is in its own slot, and nothing has leaked. */
  ghost predicate Tidy(core: Core)
    reads core, core.drivers, core.devs, core.miscs, core.Tables()
  {
    core.Valid() && core.Housed() && core.leaked == {}
  }

  /** A registration of the driver succeeds. */
  predicate Registers(drv: Driver, calls: DriverCalls) {
    drv.named && drv.owned && drv.count != 0 && DriverError(calls) == 0
  }

  /** A driver comes up; MKDEV of its static major is not 0. */
  method DriverUp(core: Core, drv: Driver, calls: DriverCalls)
    requires Tidy(core) && drv in core.drivers && Possible(calls)
    requires drv.major != 0 ==> drv.number != 0
    modifies core`live, core`root, core`refcnt, core`users, core`skewed, drv
    ensures Tidy(core) && (core.skewed ==> old(core.skewed) || !calls.root)
    ensures fresh(core.Tables() - old(core.Tables()))
    ensures drv.devices != null <==> old(drv.devices) != null || Registers(drv, calls)
  {
    if drv.devices == null {
      assert core.OwnSlots(drv);
      assert forall d :: d in core.devs && d.registered ==> d.driver != drv;
      hide Core.Valid;
      var ret := core.RegisterDriver(drv, calls);
      core.HousedWithout(drv);
    }
  }

  /** A registered driver whose devices are in their slots goes down, and takes them with it. */
  method TakeDown(core: Core, drv: Driver)
    requires core.Valid() && core.leaked == {} && drv in core.drivers && drv.devices != null && core.OwnSlots(drv)
    requires drv.major != 0 ==> drv.number != 0
    modifies core`live, core`leaked, core`root, core`refcnt, core`users, core`skewed, drv
    modifies drv.devices, set d: Dev | d in drv.devices[..]
    ensures core.Valid() && core.leaked == {} && core.skewed == old(core.skewed) && drv.devices == null
    ensures forall d :: d in core.devs && d.registered ==> d.driver != drv && unchanged(d)
  {
    core.DriverFacts(drv);
    ghost var tab := drv.devices[..];
    assert forall d: Dev :: d in tab ==> d in core.devs && d.driver == drv;
    assert forall d :: d in core.devs && d.registered && d.driver == drv ==> d in tab;
    hide Core.Valid, Core.OwnSlots, Core.DriverOk, Core.TableOk, TableRes;
    core.UnregisterDriver(drv);
  }

  /** A driver goes down. */
  method DriverDown(core: Core, drv: Driver)
    requires Tidy(core) && drv in core.drivers
    requires drv.major != 0 ==> drv.number != 0
    modifies core`live, core`leaked, core`root, core`refcnt, core`users, core`skewed, drv
    modifies if drv.devices == null then {} else {drv.devices}
    modifies set d: Dev | drv.devices != null && d in drv.devices[..]
    ensures Tidy(core) && core.skewed == old(core.skewed)
    ensures core.Tables() <= old(core.Tables())
    ensures drv.devices == null && forall d :: d in core.devs && d.driver == drv ==> !d.registered
  {
    assert core.OwnSlots(drv);
    if drv.devices != null {
      assert core.TablesApart();
      hide Core.Valid;
      TakeDown(core, drv);
      hide Core.OwnSlots;
      core.HousedWithout(drv);
    }
  }

  /** There is a slot, and nobody in it. */
  predicate Free(drv: Driver, index: nat)
    reads drv, drv.devices
  {
    drv.devices != null && index < drv.devices.Length && drv.devices[index] == null
  }

  /** A device comes up in a free slot. */
  method DevUp(core: Core, drv: Driver, dev: Dev, index: nat, calls: DevCalls)
    requires Tidy(core) && drv in core.drivers && dev in core.devs
    modifies core`live, dev
    modifies if drv.devices == null then {} else {drv.devices}
    ensures Tidy(core) && core.Tables() == old(core.Tables())
    ensures dev.registered <==> old(dev.registered) || (old(Free(drv, index)) && DevError(calls) == 0)
    ensures dev.registered && !old(dev.registered) ==>
              dev.driver == drv && dev.index == index && (dev.dir <==> core.root && calls.dir)
  {
    if Free(drv, index) && !dev.registered {
      hide Core.Valid, Core.OwnSlots;
      var ret := RegisterSlot(core, drv, dev, index, calls);
      if ret == 0 {
        core.HousedAfter(dev);
      } else {
        core.HousedStill(dev);
      }
    }
  }

  method DevDown(core: Core, dev: Dev)
    requires Tidy(core) && dev in core.devs
    modifies core`live, core`leaked, dev
    modifies if dev.registered && dev.driver.devices != null then {dev.driver.devices} else {}
    ensures Tidy(core) && core.Tables() == old(core.Tables()) && !dev.registered
  {
    if dev.registered {
      core.DevFacts(dev);
      assert core.OwnSlots(dev.driver);
      core.DriverFacts(dev.driver);
      hide Core.Valid, Core.OwnSlots;
      core.UnregisterDevice(dev, true);
      core.HousedWithoutDev(dev);
    }
  }

  method MiscUp(core: Core, misc: Misc, calls: MiscCalls)
    requires Tidy(core) && misc in core.miscs
    modifies core`live, core`root, core`refcnt, core`miscUsers, core`skewed, misc
    ensures Tidy(core) && core.Tables() == old(core.Tables())
    ensures core.skewed ==> old(core.skewed) || !calls.root
    ensures misc.registered <==> old(misc.registered) || calls.node == 0
  {
    hide Core.Valid, Core.OwnSlots;
    var ret := core.RegisterMisc(misc, true, true, calls);
  }

  method MiscDown(core: Core, misc: Misc)
    requires Tidy(core) && misc in core.miscs
    modifies core`live, core`root, core`refcnt, core`miscUsers, misc
    ensures Tidy(core) && core.Tables() == old(core.Tables()) && !misc.registered
  {
    hide Core.Valid, Core.OwnSlots;
    core.UnregisterMisc(misc);
  }

  datatype Event =
    | Up(drv: Driver, driverCalls: DriverCalls)
    | Down(drv: Driver)
    | Add(drv: Driver, dev: Dev, index: nat, devCalls: DevCalls)
    | Remove(dev: Dev)
    | AddMisc(misc: Misc, miscCalls: MiscCalls)
    | RemoveMisc(misc: Misc)

  /** The event is about objects of this registry. */
  ghost predicate Concerns(core: Core, e: Event)
    reads core
  {
    match e
    case Up(drv, calls) => drv in core.drivers && Possible(calls)
    case Down(drv) => drv in core.drivers
    case Add(drv, dev, _, _) => drv in core.drivers && dev in core.devs
    case Remove(dev) => dev in core.devs
    case AddMisc(misc, _) => misc in core.miscs
    case RemoveMisc(misc) => misc in core.miscs
  }

  ghost function Objects(core: Core): set<object>
    reads core, core.drivers
  {
    {core} + core.drivers + core.devs + core.miscs + core.Tables()
  }

  ghost predicate Numbered(core: Core)
    reads core
  {
    forall v :: v in core.drivers && v.major != 0 ==> v.number != 0
  }

  /** If the event creates the debugfs root, it succeeds. */
  predicate RootOk(e: Event) {
    (e.Up? ==> e.driverCalls.root) && (e.AddMisc? ==> e.miscCalls.root)
  }

  /** What the event is about is registered. */
  ghost predicate Present(e: Event)
    reads if e.Up? || e.Down? || e.Add? then {e.drv} else {}
    reads if e.Add? || e.Remove? then {e.dev} else {}
    reads if e.AddMisc? || e.RemoveMisc? then {e.misc} else {}
  {
    match e
    case Up(drv, _) => drv.devices != null
    case Down(drv) => drv.devices != null
    case Add(_, dev, _, _) => dev.registered
    case Remove(dev) => dev.registered
    case AddMisc(misc, _) => misc.registered
    case RemoveMisc(misc) => misc.registered
  }

  /** The event registers what it is about, if that is not registered. */
  ghost predicate Succeeds(e: Event)
    reads if e.Add? then {e.drv} else {}
    reads if e.Add? && e.drv.devices != null then {e.drv.devices} else {}
  {
    match e
    case Up(drv, calls) => Registers(drv, calls)
    case Add(drv, _, index, calls) => Free(drv, index) && DevError(calls) == 0
    case AddMisc(_, calls) => calls.node == 0
    case _ => false
  }

  /**
   One event. A registration that would take an occupied slot is skipped, and so is the
   unregistration of a driver that is not registered.
   */
  method Happen(core: Core, e: Event)
    requires Tidy(core) && Numbered(core) && Concerns(core, e)
    modifies Objects(core)
    ensures Tidy(core) && fresh(Objects(core) - old(Objects(core)))
    ensures core.skewed ==> old(core.skewed) || !RootOk(e)
    ensures Present(e) <==> (e.Up? || e.Add? || e.AddMisc?) && (old(Present(e)) || old(Succeeds(e)))
    ensures e.Down? ==> forall d :: d in core.devs && d.driver == e.drv ==> !d.registered
  {
    match e
    case Up(drv, calls) => DriverUp(core, drv, calls);
    case Down(drv) =>
      assert drv.devices != null ==> forall d: Dev :: d in drv.devices[..] ==> d in core.devs;
      DriverDown(core, drv);
    case Add(drv, dev, index, calls) => DevUp(core, drv, dev, index, calls);
    case Remove(dev) =>
      core.DevFacts(dev);
      DevDown(core, dev);
    case AddMisc(misc, calls) => MiscUp(core, misc, calls);
    case RemoveMisc(misc) => MiscDown(core, misc);
  }

  /**
   In every run whose registrations take free slots only, and in which the root can be
   created whenever it is needed, no debugfs directory outlives the root, and the count
   is that of the users.
   */
  method Run(core: Core, events: seq<Event>)
    requires Tidy(core) && Numbered(core) && forall e :: e in events ==> Concerns(core, e) && RootOk(e)
    requires !core.skewed
    modifies Objects(core)
    ensures Tidy(core) && !core.skewed && core.DirsUnderRoot()
  {
    var i := 0;
    while i < |events|
      invariant i <= |events| && Tidy(core) && !core.skewed && fresh(Objects(core) - old(Objects(core)))
    {
      assert events[i] in events;
      Happen(core, events[i]);
      i := i + 1;
    }
    core.HousedDirs();
  }

  // ----- What happens otherwise -----

  const ALL_WELL := DevCalls(0, 0, 0, true)

  /** A driver with one slot, two devices and a misc device, none of them registered. */
  method Apart() returns (core: Core, drv: Driver, a: Dev, b: Dev, misc: Misc)
    ensures fresh({core, drv, a, b, misc}) && a != b && core.Valid() && !core.skewed && core.leaked == {}
    ensures core.drivers == {drv} && core.devs == {a, b} && core.miscs == {misc} && core.refcnt == 0
    ensures drv.devices == null && drv.named && drv.owned && drv.count == 1 && drv.major == 0
    ensures !a.registered && !b.registered && !misc.registered
  {
    drv := new Driver(true, true, 1, 0);
    a := new Dev();
    b := new Dev();
    misc := new Misc();
    core := new Core({drv}, {a, b}, {misc});
  }

  /** The driver registered. */
  method OneSlot() returns (core: Core, drv: Driver, a: Dev, b: Dev, misc: Misc)
    ensures fresh({core, drv, a, b, misc}) && a != b && core.Valid() && !core.skewed && core.leaked == {}
    ensures core.drivers == {drv} && core.devs == {a, b} && core.miscs == {misc} && !misc.registered
    ensures drv.devices != null && fresh(drv.devices) && drv.devices[..] == [null]
    ensures !a.registered && !b.registered && core.root && core.refcnt == 1 && drv.major == 0 && drv.count == 1
  {
    core, drv, a, b, misc := Apart();
    hide Core.Valid, DriverRes;
    var up := core.RegisterDriver(drv, DriverCalls(true, 0, 0x10_0000, 0, true));
  }

  /** One device registered in the slot. */
  method Seat() returns (core: Core, drv: Driver, a: Dev, b: Dev, misc: Misc)
    ensures fresh({core, drv, a, b, misc}) && a != b && core.Valid() && !core.skewed && core.leaked == {}
    ensures core.drivers == {drv} && core.devs == {a, b} && core.miscs == {misc} && !misc.registered
    ensures drv.devices != null && fresh(drv.devices) && drv.devices[..] == [a] && drv.count == 1
    ensures a.registered && a.driver == drv && a.dir && !b.registered
    ensures core.root && core.refcnt == 1 && drv.major == 0
  {
    core, drv, a, b, misc := OneSlot();
    hide Core.Valid, DevRes;
    var one := core.RegisterDevice(drv, a, true, 0, ALL_WELL);
  }

  /** The other registered at the same index with no kernel call failing; it takes the slot. */
  method Displace() returns (core: Core, drv: Driver, a: Dev, b: Dev, misc: Misc)
    ensures fresh({core, drv, a, b, misc}) && a != b && core.Valid() && !core.skewed && core.leaked == {}
    ensures core.drivers == {drv} && core.devs == {a, b} && core.miscs == {misc} && !misc.registered
    ensures drv.devices != null && fresh(drv.devices) && drv.devices[..] == [b]
    ensures a.registered && a.driver == drv && a.dir && b.registered && b.driver == drv
    ensures core.root && core.refcnt == 1 && drv.major == 0
  {
    core, drv, a, b, misc := Seat();
    hide Core.Valid, DevRes;
    var two := core.RegisterDevice(drv, b, true, 0, ALL_WELL);
  }

  /**
   The teardown then unregisters the second only. The first outlives its driver, and its
   debugfs directory the root.
   */
  method DisplacedDeviceStays() returns (core: Core, drv: Driver, a: Dev)
    ensures fresh({core, drv, a}) && core.Valid() && !core.skewed && core.leaked == {}
    ensures drv in core.drivers && drv.devices == null && drv.cls == NullClass
    ensures a in core.devs && a.registered && a.driver == drv
    ensures a.dir && !core.root && !core.DirsUnderRoot()
  {
    var b, misc;
    core, drv, a, b, misc := Displace();
    core.DriverFacts(drv);
    assert b in drv.devices[..] && a !in drv.devices[..];
    assert drv.devt != 0;
    hide Core.Valid, Core.DriverOk, Core.TableOk, Core.DebugfsOk, TableRes;
    core.UnregisterDriver(drv);
  }

  /** Unregistering it releases its cdev and attribute, and leaves its node behind unless device_destroy finds it. */
  method DisplacedNode(found: bool) returns (core: Core, a: Dev)
    ensures core.Valid() && a in core.devs && !a.registered
    ensures Cdev(a) !in core.live && OpensAttr(a) !in core.live
    ensures Node(a) in core.live <==> !found
    ensures core.leaked == if found then {} else {Node(a)}
  {
    var drv;
    core, drv, a := DisplacedDeviceStays();
    core.DevFacts(a);
    hide Core.Valid;
    core.UnregisterDevice(a, found);
  }

  /** A third registration, of a misc device, keeps the root through the teardown, and takes it away itself. */
  method DisplacedUnderMisc() returns (core: Core, a: Dev, misc: Misc)
    ensures core.Valid() && !core.skewed && a in core.devs && misc in core.miscs
    ensures a.registered && a.dir && !misc.registered && !core.root && !core.DirsUnderRoot()
  {
    var drv;
    core, drv, a, misc := MiscAndDisplaced();
    assert core.root && core.DirsUnderRoot();
    hide Core.Valid;
    core.UnregisterMisc(misc);
  }

  /** After the teardown of its driver the displaced device's directory is still under the root. */
  method MiscAndDisplaced() returns (core: Core, drv: Driver, a: Dev, misc: Misc)
    ensures fresh({core, drv, a, misc}) && core.Valid() && !core.skewed
    ensures drv in core.drivers && drv.devices == null && a in core.devs && misc in core.miscs
    ensures a.registered && a.dir && misc.registered
    ensures core.root && core.refcnt == 1
  {
    var b;
    core, drv, a, b, misc := MiscBeside();
    core.DriverFacts(drv);
    assert b in drv.devices[..] && a !in drv.devices[..] && drv.devt != 0;
    hide Core.Valid, Core.DriverOk, Core.TableOk, Core.DebugfsOk, TableRes, DriverRes;
    core.UnregisterDriver(drv);
  }

  /** Two devices at one index, and a misc device. */
  method MiscBeside() returns (core: Core, drv: Driver, a: Dev, b: Dev, misc: Misc)
    ensures fresh({core, drv, a, b, misc}) && a != b && core.Valid() && !core.skewed && core.leaked == {}
    ensures core.drivers == {drv} && core.devs == {a, b} && core.miscs == {misc}
    ensures drv.devices != null && fresh(drv.devices) && drv.devices[..] == [b] && drv.major == 0
    ensures a.registered && a.driver == drv && a.dir && b.registered && b.driver == drv && misc.registered
    ensures core.root && core.refcnt == 2
  {
    core, drv, a, b, misc := Displace();
    hide Core.Valid, Core.DriverOk, Core.TableOk, Core.DebugfsOk;
    var ret := core.RegisterMisc(misc, true, true, MiscCalls(true, 0, true));
  }
}
