/**
 Registration in the block framework, with the ledger of kernel resources, and the RAM
 disk module on top of it. The results of the kernel calls are parameters.
 */
module BlockRegistry {
  import opened Kernel
  import RamDisk

  datatype Resource =
    | Table(drv: Driver)
    | Disk(dev: Dev)      // blk_alloc_disk until put_disk
    | Added(dev: Dev)     // add_disk until del_gendisk
    | Memory

  class Driver {
    const named: bool
    const owned: bool
    const count: nat
    var devices: array?<Dev?>

    constructor (named: bool, owned: bool, count: nat)
      ensures devices == null && this.named == named && this.owned == owned && this.count == count
    {
      this.named, this.owned, this.count := named, owned, count;
      devices := null;
    }
  }

  /** dev->disk: NULL, an error pointer, or a disk. */
  datatype DiskPtr = Null | ErrPtr | Ptr

  class Dev {
    var driver: Driver?
    var index: nat
    var capacity: nat
    var blockSize: nat
    var disk: DiskPtr
    var registered: bool

    constructor ()
      ensures !registered && disk == Null
    {
      driver, index, capacity, blockSize, disk, registered := null, 0, 0, 0, Null, false;
    }
  }

  /** What the kernel answers to a registration: error numbers, 0 for success. */
  datatype DiskCalls = DiskCalls(alloc: nat, add: nat)

  function DiskError(calls: DiskCalls): (e: int)
    ensures e == 0 <==> calls.alloc == calls.add == 0
    ensures -e == if calls.alloc != 0 then calls.alloc else calls.add
  {
    if calls.alloc != 0 then 0 - calls.alloc else 0 - calls.add
  }

  function DevRes(dev: Dev): set<Resource> {
    {Disk(dev), Added(dev)}
  }

  function Held(d: Dev?): set<Resource> {
    if d == null then {} else DevRes(d)
  }

  /** What the devices of a table hold. */
  ghost function TableRes(tab: seq<Dev?>): set<Resource> {
    if tab == [] then {} else TableRes(tab[..|tab| - 1]) + Held(tab[|tab| - 1])
  }

  lemma TableResSnoc(tab: seq<Dev?>, i: nat)
    requires i < |tab|
    ensures TableRes(tab[..i + 1]) == TableRes(tab[..i]) + Held(tab[i])
  {
    assert tab[..i + 1][..i] == tab[..i];
  }

  lemma {:induction false} TableResNull(tab: seq<Dev?>)
    requires forall i :: 0 <= i < |tab| ==> tab[i] == null
    ensures TableRes(tab) == {}
  {
    if tab != [] {
      TableResNull(tab[..|tab| - 1]);
    }
  }

  class Core {
    ghost const drivers: set<Driver>
    ghost const devs: set<Dev>
    ghost var live: set<Resource>

    constructor (ghost drivers: set<Driver>, ghost devs: set<Dev>)
      requires forall v :: v in drivers ==> v.devices == null
      requires forall d :: d in devs ==> !d.registered && d.disk != Ptr
      ensures this.drivers == drivers && this.devs == devs && live == {}
      ensures Valid()
    {
      this.drivers, this.devs, live := drivers, devs, {};
    }

    /** A device in a table is registered, points back, and has the index of its slot. */
    ghost predicate DriverOk(drv: Driver)
      reads this, drv, drv.devices, devs
    {
      && (Table(drv) in live <==> drv.devices != null)
      && (drv.devices != null ==>
            && drv.devices.Length == drv.count
            && forall i :: 0 <= i < drv.devices.Length && drv.devices[i] != null ==>
                 var d := drv.devices[i];
                 d in devs && d.registered && d.driver == drv && d.index == i)
    }

    ghost predicate DevOk(d: Dev)
      reads this, d
    {
      && (Disk(d) in live <==> d.registered)
      && (Added(d) in live <==> d.registered)
      && (d.disk == Ptr <==> d.registered)
      && (d.registered ==> d.driver != null && d.driver in drivers && d.index < d.driver.count)
    }

    ghost function Tables(): set<array<Dev?>>
      reads drivers
    {
      set drv | drv in drivers && drv.devices != null :: drv.devices
    }

    ghost predicate TablesApart()
      reads drivers
    {
      forall a, b :: a in drivers && b in drivers && a != b && a.devices != null ==> a.devices != b.devices
    }

    ghost predicate Valid()
      reads this, drivers, devs, Tables()
    {
      && (forall drv :: drv in drivers ==> DriverOk(drv))
      && (forall d :: d in devs ==> DevOk(d))
      && TablesApart()
    }

    lemma DriverFacts(drv: Driver)
      requires Valid() && drv in drivers
      ensures DriverOk(drv)
    {}

    lemma DevFacts(d: Dev)
      requires Valid() && d in devs
      ensures DevOk(d)
    {}

    /** A kernel call that acquires `r` or fails with error number `err`. */
    method Acquire(ghost r: Resource, err: nat) returns (ret: int)
      requires r !in live
      modifies this`live
      ensures ret == 0 - err
      ensures live == if err == 0 then old(live) + {r} else old(live)
    {
      if err == 0 {
        live := live + {r};
      }
      ret := 0 - err;
    }

    /** A kernel call that releases `r`. */
    method Release(ghost r: Resource)
      requires r in live
      modifies this`live
      ensures live == old(live) - {r}
    {
      live := live - {r};
    }

    // ----- Frames -----

    /** Validity after a change that concerns one driver, and the disk's memory, only. */
    twostate lemma DriverChanged(drv: Driver)
      requires old(Valid()) && drv in drivers
      requires forall v :: v in drivers && v != drv ==> unchanged(v)
      requires forall t :: t in old(Tables()) ==> unchanged(t)
      requires forall d :: d in devs ==> unchanged(d)
      requires forall r :: r != Table(drv) && r != Memory ==> (r in live <==> r in old(live))
      requires drv.devices == null || drv.devices == old(drv.devices) || fresh(drv.devices)
      requires DriverOk(drv)
      ensures Valid()
    {
      forall v | v in drivers
        ensures DriverOk(v)
      {
        assert v != drv ==> old(DriverOk(v));
        assert v != drv && v.devices != null ==> v.devices in old(Tables());
      }
      forall d | d in devs
        ensures DevOk(d)
      {
        assert old(DevOk(d));
      }
    }

    /** Validity after a change that concerns one device and its driver's table only. */
    twostate lemma DevChanged(dev: Dev)
      requires old(Valid()) && dev in devs && dev.driver != null && dev.driver in drivers
      requires forall v :: v in drivers ==> unchanged(v)
      requires forall t :: t in old(Tables()) && t != dev.driver.devices ==> unchanged(t)
      requires forall d :: d in devs && d != dev ==> unchanged(d)
      requires forall r :: r !in DevRes(dev) ==> (r in live <==> r in old(live))
      requires old(dev.registered) ==> old(dev.driver) == dev.driver
      requires DevOk(dev)
      requires dev.driver.devices != null ==>
                 forall i :: 0 <= i < dev.driver.devices.Length ==>
                   dev.driver.devices[i] == (if dev.registered && i == dev.index then dev
                                             else if old(dev.registered) && i == old(dev.index) then null
                                             else (var v := dev.driver; old(v.devices[i])))
      requires dev.registered ==> !old(dev.registered)
      ensures Valid()
    {
      forall v | v in drivers
        ensures DriverOk(v)
      {
        assert old(DriverOk(v));
        if v != dev.driver && v.devices != null {
          assert v.devices in old(Tables()) && v.devices != dev.driver.devices;
        }
      }
      forall d | d in devs
        ensures DevOk(d)
      {
        assert old(DevOk(d));
      }
    }

    // ----- Drivers and devices -----

    /** nv_block_driver_register; `ok` says whether the table can be allocated. */
    method RegisterDriver(drv: Driver?, ok: bool) returns (ret: int)
      requires Valid()
      requires drv != null ==> drv in drivers && drv.devices == null
      modifies this`live
      modifies if drv == null then {} else {drv}
      ensures Valid()
      ensures ret == if drv == null || !drv.named || !drv.owned || drv.count == 0 then -EINVAL
                     else if ok then 0 else -ENOMEM
      ensures ret == 0 ==> live == old(live) + {Table(drv)}
      ensures ret == 0 ==> drv.devices != null && fresh(drv.devices) && drv.devices.Length == drv.count
      ensures ret == 0 ==> forall i :: 0 <= i < drv.devices.Length ==> drv.devices[i] == null
      ensures ret != 0 ==> live == old(live) && (drv != null ==> drv.devices == null)
    {
      if drv == null || !drv.named || drv.count == 0 || !drv.owned {
        return -EINVAL;
      }
      DriverFacts(drv);
      hide Valid;
      ret := Acquire(Table(drv), if ok then 0 else ENOMEM);
      if ret != 0 {
        return -ENOMEM;
      }
      var table := new Dev?[drv.count](_ => null);
      drv.devices := table;
      DriverChanged(drv);
    }

    /** The calls of device registration that can fail, with the unwinding after each. */
    method AcquireDisk(dev: Dev, calls: DiskCalls) returns (ret: int)
      requires live !! DevRes(dev)
      modifies this`live, dev`disk
      ensures ret == DiskError(calls)
      ensures ret == 0 ==> live == old(live) + DevRes(dev) && dev.disk == Ptr
      ensures ret != 0 ==> live == old(live) && dev.disk == if calls.alloc != 0 then ErrPtr else Null
    {
      ret := Acquire(Disk(dev), calls.alloc);
      if ret != 0 {
        dev.disk := ErrPtr;
        return;
      }
      dev.disk := Ptr;
      ret := Acquire(Added(dev), calls.add);
      if ret != 0 {
        Release(Disk(dev));
        dev.disk := Null;
      }
    }

    /** Lines 122-156: everything after the argument checks. */
    method AddDevice(drv: Driver, dev: Dev, index: nat, capacity: nat, logicalBlockSize: nat, calls: DiskCalls)
      returns (ret: int)
      requires Valid() && drv in drivers && drv.devices != null && dev in devs
      requires !dev.registered && index < drv.count
      modifies this`live, drv.devices, dev
      ensures Valid() && ret == DiskError(calls)
      ensures dev.registered <==> ret == 0
      ensures ret == 0 ==>
                && live == old(live) + DevRes(dev)
                && dev.driver == drv && dev.index == index && dev.capacity == capacity
                && dev.blockSize == (if logicalBlockSize == 0 then 512 else logicalBlockSize)
                && drv.devices[..] == old(drv.devices[..])[index := dev]
      ensures ret != 0 ==> live == old(live) && drv.devices[..] == old(drv.devices[..])
    {
      DevFacts(dev);
      DriverFacts(drv);
      hide Valid, TablesApart;
      dev.driver := drv;
      dev.index := index;
      dev.capacity := capacity;
      dev.blockSize := if logicalBlockSize == 0 then 512 else logicalBlockSize;
      ret := AcquireDisk(dev, calls);
      if ret == 0 {
        drv.devices[index] := dev;
        dev.registered := true;
      }
      DevChanged(dev);
    }

    /** nv_block_device_register. */
    method RegisterDevice(drv: Driver?, dev: Dev?, index: nat, named: bool, submits: bool, capacity: nat,
                          logicalBlockSize: nat, calls: DiskCalls)
      returns (ret: int)
      requires Valid()
      requires drv != null ==> drv in drivers && drv.devices != null
      requires dev != null ==> dev in devs
      modifies this`live
      modifies if drv == null then {} else {drv.devices}
      modifies if dev == null then {} else {dev}
      ensures Valid()
      ensures ret == if drv == null || dev == null || !named || !submits then -EINVAL
                     else if index >= drv.count || capacity == 0 then -EINVAL
                     else if old(dev.registered) then -EBUSY else DiskError(calls)
      ensures ret == 0 ==>
                && live == old(live) + DevRes(dev)
                && dev.registered && dev.driver == drv && dev.index == index && dev.capacity == capacity
                && dev.blockSize == (if logicalBlockSize == 0 then 512 else logicalBlockSize)
                && drv.devices[..] == old(drv.devices[..])[index := dev]
      ensures ret != 0 ==>
                && live == old(live)
                && (drv != null ==> drv.devices[..] == old(drv.devices[..]))
                && (dev != null ==> dev.registered == old(dev.registered))
    {
      if drv == null || dev == null || !named || !submits || index >= drv.count || capacity == 0 {
        return -EINVAL;
      }
      if dev.registered {
        return -EBUSY;
      }
      ret := AddDevice(drv, dev, index, capacity, logicalBlockSize, calls);
    }

    /** Lines 165-174 for a registered device, whether or not its driver still has a table. */
    method RemoveDevice(dev: Dev)
      requires Valid() && dev in devs && dev.registered
      modifies this`live, dev
      modifies if dev.driver.devices == null then {} else {dev.driver.devices}
      ensures Valid() && !dev.registered && dev.disk == Null
      ensures dev.driver == old(dev.driver) && dev.index == old(dev.index)
      ensures live == old(live) - DevRes(dev) && DevRes(dev) <= old(live)
      ensures dev.driver.devices != null ==>
                dev.driver.devices[..] == (var v := dev.driver; old(v.devices[..]))[dev.index := null]
    {
      DevFacts(dev);
      DriverFacts(dev.driver);
      hide Valid, TablesApart;
      if dev.driver != null && dev.driver.devices != null {
        dev.driver.devices[dev.index] := null;
      }
      if dev.disk != Null {
        Release(Added(dev));
        Release(Disk(dev));
        dev.disk := Null;
      }
      dev.registered := false;
      DevChanged(dev);
    }

    /** nv_block_device_unregister: each resource is released once, also after the driver is gone. */
    method UnregisterDevice(dev: Dev?)
      requires Valid() && (dev != null ==> dev in devs)
      modifies this`live
      modifies if dev == null || !dev.registered then {} else {dev}
      modifies if dev == null || !dev.registered || dev.driver.devices == null then {} else {dev.driver.devices}
      ensures Valid()
      ensures dev == null || !old(dev.registered) ==> live == old(live)
      ensures dev != null ==> !dev.registered && dev.driver == old(dev.driver) && dev.index == old(dev.index)
      ensures dev != null && old(dev.registered) ==>
                && live == old(live) - DevRes(dev) && DevRes(dev) <= old(live)
                && (dev.driver.devices != null ==>
                      dev.driver.devices[..] == (var v := dev.driver; old(v.devices[..]))[dev.index := null])
    {
      if dev == null || !dev.registered {
        return;
      }
      RemoveDevice(dev);
    }

    /** One turn of the teardown loop: it reads slot `i` and clears the slot its device names. */
    method UnregisterSlot(drv: Driver, i: nat)
      requires Valid() && drv in drivers && drv.devices != null && i < drv.devices.Length
      modifies this`live, drv.devices
      modifies if drv.devices[i] == null then {} else {drv.devices[i]}
      ensures Valid()
      ensures drv.devices[..] == old(drv.devices[..])[i := null]
      ensures var d := old(drv.devices[i]); d != null ==> old(d.registered) && !d.registered && d.driver == drv
      ensures live == old(live) - Held(old(drv.devices[i]))
    {
      DriverFacts(drv);
      if drv.devices[i] != null {
        UnregisterDevice(drv.devices[i]);
      }
    }

    /** The teardown loop. */
    method UnregisterAll(drv: Driver)
      requires Valid() && drv in drivers && drv.devices != null
      modifies this`live, drv.devices, set d: Dev | d in drv.devices[..]
      ensures Valid()
      ensures forall i :: 0 <= i < drv.devices.Length ==> drv.devices[i] == null
      ensures forall d: Dev :: d in old(drv.devices[..]) ==> !d.registered && d.driver == drv
      ensures live == old(live) - TableRes(old(drv.devices[..]))
    {
      ghost var tab := drv.devices[..];
      DriverFacts(drv);
      assert drv.count == drv.devices.Length;
      hide Valid, DevOk, DriverOk, TablesApart, DevRes, Held;
      var i := 0;
      assert tab[..0] == [];
      while i < drv.count
        invariant 0 <= i <= drv.count == |tab| == drv.devices.Length
        invariant Valid()
        invariant forall k :: 0 <= k < |tab| ==> drv.devices[k] == if k < i then null else tab[k]
        invariant forall k :: 0 <= k < i && tab[k] != null ==> !tab[k].registered && tab[k].driver == drv
        invariant live == old(live) - TableRes(tab[..i])
      {
        TableResSnoc(tab, i);
        assert tab[i] != null ==> tab[i] in tab;
        UnregisterSlot(drv, i);
        i := i + 1;
      }
      assert tab[..i] == tab;
    }

    /** kfree of an empty table. */
    method FreeTable(drv: Driver)
      requires Valid() && drv in drivers && drv.devices != null
      modifies this`live, drv
      ensures Valid() && drv.devices == null
      ensures Table(drv) in old(live) && live == old(live) - {Table(drv)}
    {
      DriverFacts(drv);
      hide Valid, TablesApart;
      Release(Table(drv));
      drv.devices := null;
      DriverChanged(drv);
    }

    /** nv_block_driver_unregister. */
    method UnregisterDriver(drv: Driver?)
      requires Valid() && (drv != null ==> drv in drivers)
      modifies this`live
      modifies if drv == null then {} else {drv}
      modifies if drv == null || drv.devices == null then {} else {drv.devices}
      modifies set d: Dev | drv != null && drv.devices != null && d in drv.devices[..]
      ensures Valid()
      ensures drv == null || old(drv.devices) == null ==> live == old(live)
      ensures drv != null ==> drv.devices == null
      ensures drv != null && old(drv.devices) != null ==>
                && (forall d: Dev :: d in old(drv.devices[..]) ==> !d.registered && d.driver == drv)
                && Table(drv) in old(live)
                && live == old(live) - TableRes(old(drv.devices[..])) - {Table(drv)}
    {
      if drv != null && drv.devices != null {
        UnregisterAll(drv);
        FreeTable(drv);
      }
    }

    // ----- Which disks the teardown reaches -----

    /** Each registered disk of the driver sits in the slot its index names. */
    ghost predicate OwnSlots(drv: Driver)
      reads drv, drv.devices, devs
    {
      forall d :: d in devs && d.registered && d.driver == drv ==>
        drv.devices != null && d.index < drv.devices.Length && drv.devices[d.index] == d
    }

    /** The registered disks of a driver that are not in its table. */
    ghost function Strays(drv: Driver): set<Dev>
      requires drv.devices != null
      reads drv, drv.devices, devs
    {
      set d | d in devs && d.registered && d.driver == drv && d !in drv.devices[..]
    }

    lemma StraysIff(drv: Driver)
      requires Valid() && drv in drivers && drv.devices != null
      ensures Strays(drv) == {} <==> OwnSlots(drv)
    {
      DriverFacts(drv);
      hide Valid;
      forall d | d in devs && d.registered && d.driver == drv
        ensures d in Strays(drv) <==> !(d.index < drv.devices.Length && drv.devices[d.index] == d)
      {
        if d in drv.devices[..] {
          var i :| 0 <= i < drv.devices.Length && drv.devices[i] == d;
        }
      }
    }

    /** The teardown leaves none of a driver's disks registered exactly if each of them sat in its own slot. */
    method TeardownIsComplete(drv: Driver) returns (ghost complete: bool)
      requires Valid() && drv in drivers && drv.devices != null
      modifies this`live, drv, drv.devices, set d: Dev | d in drv.devices[..]
      ensures Valid()
      ensures complete == forall d :: d in devs && d.driver == drv ==> !d.registered
      ensures complete <==> old(OwnSlots(drv))
    {
      ghost var tab := drv.devices[..];
      ghost var strays := Strays(drv);
      StraysIff(drv);
      DriverFacts(drv);
      assert forall d: Dev :: d in tab ==> d in devs && d.driver == drv;
      hide Valid, OwnSlots, DriverOk, TablesApart, TableRes;
      UnregisterDriver(drv);
      assert forall d :: d in devs && d !in tab ==> unchanged(d);
      complete := forall d :: d in devs && d.driver == drv ==> !d.registered;
      assert complete <==> strays == {};
    }

    /** What a registration changes, for the tables. */
    twostate predicate TookSlot(dev: Dev)
      reads this, drivers, devs, Tables()
    {
      && dev in devs && dev.registered && !old(dev.registered)
      && dev.driver != null && dev.driver in drivers
      && (forall v :: v in drivers ==> unchanged(v))
      && (forall d :: d in devs && d != dev ==> unchanged(d))
      && dev.driver.devices != null && dev.index < dev.driver.devices.Length
      && dev.driver.devices[..] == (var v := dev.driver; old(v.devices[..]))[dev.index := dev]
    }

    /** A registration keeps the driver's disks in their own slots exactly if the slot it takes was free. */
    twostate lemma OwnSlotsAfter(dev: Dev)
      requires old(Valid()) && TookSlot(dev)
      requires var v := dev.driver; old(OwnSlots(v))
      ensures OwnSlots(dev.driver) <==> (var v, i := dev.driver, dev.index; old(v.devices[i])) == null
    {
      var drv, index := dev.driver, dev.index;
      var tab := old(drv.devices[..]);
      assert old(DriverOk(drv));
      var was := tab[index];
      if was != null {
        assert old(drv.devices[index]) == was;
        assert was in devs && was != dev && was.registered && was.driver == drv && was.index == index;
      } else {
        forall d | d in devs && d.registered && d.driver == drv
          ensures d.index < drv.devices.Length && drv.devices[d.index] == d
        {
          if d != dev {
            assert old(d.registered && d.driver == drv);
            assert tab[d.index] == d;
          }
        }
      }
    }

    // ----- The memory of the RAM disk -----

    twostate lemma MemoryChanged()
      requires old(Valid())
      requires unchanged(drivers) && unchanged(devs) && unchanged(Tables())
      requires forall r :: r != Memory ==> (r in live <==> r in old(live))
      ensures Valid()
    {
      forall v | v in drivers
        ensures DriverOk(v)
      {
        assert old(DriverOk(v));
      }
      forall d | d in devs
        ensures DevOk(d)
      {
        assert old(DevOk(d));
      }
    }

    method AllocateMemory(ok: bool)
      requires Valid() && Memory !in live
      modifies this`live
      ensures Valid()
      ensures live == if ok then old(live) + {Memory} else old(live)
    {
      var ret := Acquire(Memory, if ok then 0 else ENOMEM);
      MemoryChanged();
    }

    method FreeMemory()
      requires Valid() && Memory in live
      modifies this`live
      ensures Valid() && live == old(live) - {Memory}
    {
      Release(Memory);
      MemoryChanged();
    }
  }

  // ----- A disk that outlives its driver -----

  /** A registration keeps the driver's disks in their own slots exactly if the slot it takes was free. */
  method RegisterSlot(core: Core, drv: Driver, dev: Dev, index: nat, capacity: nat, calls: DiskCalls) returns (ret: int)
    requires core.Valid() && drv in core.drivers && drv.devices != null && index < drv.devices.Length
    requires dev in core.devs && capacity > 0
    modifies core`live, drv.devices, dev
    ensures core.Valid() && ret == if old(dev.registered) then -EBUSY else DiskError(calls)
    ensures ret == 0 && old(core.OwnSlots(drv)) ==> (core.OwnSlots(drv) <==> old(drv.devices[index]) == null)
  {
    core.DriverFacts(drv);
    ghost var housed := core.OwnSlots(drv);
    hide Core.Valid, Core.OwnSlots;
    ret := core.RegisterDevice(drv, dev, index, true, true, capacity, 0, calls);
    if ret == 0 && housed {
      assert core.TookSlot(dev);
      core.OwnSlotsAfter(dev);
    }
  }

  /** A driver with one slot and two disks, none of them registered. */
  method Apart() returns (core: Core, drv: Driver, a: Dev, b: Dev)
    ensures fresh({core, drv, a, b}) && a != b && core.Valid()
    ensures core.drivers == {drv} && core.devs == {a, b} && core.live == {}
    ensures drv.devices == null && drv.named && drv.owned && drv.count == 1
    ensures !a.registered && !b.registered
  {
    drv := new Driver(true, true, 1);
    a := new Dev();
    b := new Dev();
    core := new Core({drv}, {a, b});
  }

  /** Both registered at index 0 with no kernel call failing; the second takes the slot. */
  method Displace() returns (core: Core, drv: Driver, a: Dev, b: Dev)
    ensures fresh({core, drv, a, b}) && a != b && core.Valid()
    ensures core.drivers == {drv} && core.devs == {a, b}
    ensures drv.devices != null && fresh(drv.devices) && drv.devices[..] == [b]
    ensures a.registered && a.driver == drv && b.registered && b.driver == drv
  {
    core, drv, a, b := Apart();
    hide Core.Valid, DevRes;
    var up := core.RegisterDriver(drv, true);
    var one := core.RegisterDevice(drv, a, 0, true, true, 1, 0, DiskCalls(0, 0));
    var two := core.RegisterDevice(drv, b, 0, true, true, 1, 0, DiskCalls(0, 0));
  }

  /** The teardown then unregisters the second only. */
  method DisplacedDiskStays() returns (core: Core, drv: Driver, a: Dev)
    ensures fresh({core, drv, a}) && core.Valid() && drv in core.drivers && drv.devices == null
    ensures a in core.devs && a.registered && a.driver == drv && DevRes(a) <= core.live
  {
    var b;
    core, drv, a, b := Displace();
    assert b in drv.devices[..] && a !in drv.devices[..];
    hide Core.Valid, TableRes;
    core.UnregisterDriver(drv);
    core.DevFacts(a);
  }

  /** Unregistering the first afterwards releases its disk, once. */
  method DisplacedDiskGoes() returns (core: Core, a: Dev)
    ensures core.Valid() && a in core.devs && !a.registered && core.live !! DevRes(a)
  {
    var drv;
    core, drv, a := DisplacedDiskStays();
    hide Core.Valid;
    core.UnregisterDevice(a);
  }

  // ----- The RAM disk module -----

  /** What the loaded module holds. */
  function ModuleRes(drv: Driver, dev: Dev): set<Resource> {
    {Memory, Table(drv)} + DevRes(dev)
  }

  lemma FreeBefore(core: Core, drv: Driver, dev: Dev)
    requires core.Valid() && drv in core.drivers && dev in core.devs && Memory !in core.live
    requires drv.devices == null && !dev.registered
    ensures core.live !! ModuleRes(drv, dev)
  {
    core.DevFacts(dev);
    core.DriverFacts(drv);
  }

  /** What the kernel answers on the way, and what init returns. */
  datatype RamCalls = RamCalls(memory: bool, table: bool, disk: DiskCalls)

  function RamError(calls: RamCalls): (e: int)
    ensures e == 0 <==> calls.memory && calls.table && DiskError(calls.disk) == 0
    ensures !(calls.memory && calls.table) ==> e == -12
  {
    if !calls.memory || !calls.table then -ENOMEM else DiskError(calls.disk)
  }

  /** Register the disk; on failure unregister the driver. */
  method RegisterOrUnwind(core: Core, drv: Driver, dev: Dev, sectors: nat, calls: DiskCalls) returns (ret: int)
    requires core.Valid() && drv in core.drivers && dev in core.devs && drv.count == 1 && sectors > 0
    requires drv.devices != null && drv.devices.Length == 1 && drv.devices[0] == null && !dev.registered
    modifies core`live, drv, drv.devices, dev
    ensures core.Valid() && ret == DiskError(calls)
    ensures ret == 0 ==>
              && drv.devices == old(drv.devices) && drv.devices[0] == dev
              && dev.capacity == sectors && dev.blockSize == RamDisk.RAM_BLOCK_SIZE
              && core.live == old(core.live) + DevRes(dev)
    ensures ret != 0 ==>
              && drv.devices == null && !dev.registered
              && core.live == old(core.live) - {Table(drv)}
  {
    ret := core.RegisterDevice(drv, dev, 0, true, true, sectors, RamDisk.RAM_BLOCK_SIZE, calls);
    if ret != 0 {
      assert drv.devices[..] == [null];
      TableResNull(drv.devices[..]);
      core.UnregisterDriver(drv);
    }
  }

  /**
   ram_init. When it succeeds the disk has as many sectors as its memory holds, so a bio
   that ends within the capacity ends within the memory.
   */
  method RamInit(core: Core, drv: Driver, dev: Dev, sizeMb: nat, calls: RamCalls)
    returns (ret: int, priv: RamDisk.RamPriv)
    requires core.Valid() && drv in core.drivers && dev in core.devs && Memory !in core.live
    requires drv.named && drv.owned && drv.count == 1 && drv.devices == null && !dev.registered
    modifies core`live, drv, dev
    ensures core.Valid() && ret == RamError(calls) && priv.Valid()
    ensures old(core.live) !! ModuleRes(drv, dev)
    ensures ret == 0 ==>
              && core.live == old(core.live) + ModuleRes(drv, dev)
              && drv.devices != null && fresh(drv.devices) && drv.devices.Length == 1 && drv.devices[0] == dev
              && priv.data != null && priv.data.Length == dev.capacity * dev.blockSize
              && dev.capacity == priv.sectors > 0
    ensures ret != 0 ==> core.live == old(core.live) && drv.devices == null && !dev.registered
  {
    FreeBefore(core, drv, dev);
    hide Core.Valid, TableRes;
    core.AllocateMemory(calls.memory);
    priv := new RamDisk.RamPriv(sizeMb, calls.memory);
    if !calls.memory {
      return -ENOMEM, priv;
    }
    ret := core.RegisterDriver(drv, calls.table);
    if ret == 0 {
      ret := RegisterOrUnwind(core, drv, dev, priv.sectors, calls.disk);
    }
    if ret != 0 {
      core.FreeMemory();
    }
  }

  /** ram_exit: the driver's loop revisits the slot the disk has left. */
  method RamExit(core: Core, drv: Driver, dev: Dev)
    requires core.Valid() && drv in core.drivers && dev in core.devs && Memory in core.live
    requires drv.devices != null && drv.devices.Length == 1 && drv.devices[0] == dev
    modifies core`live, drv, drv.devices, dev
    ensures core.Valid() && drv.devices == null && !dev.registered
    ensures ModuleRes(drv, dev) <= old(core.live)
    ensures core.live == old(core.live) - ModuleRes(drv, dev)
  {
    core.DriverFacts(drv);
    hide Core.Valid, TableRes;
    core.UnregisterDevice(dev);
    assert drv.devices[..] == [null];
    TableResNull(drv.devices[..]);
    core.UnregisterDriver(drv);
    core.FreeMemory();
  }

  /** Init followed by exit leaves the ledger as it was, whichever kernel call failed. */
  method InitThenExit(core: Core, drv: Driver, dev: Dev, sizeMb: nat, calls: RamCalls) returns (ret: int)
    requires core.Valid() && drv in core.drivers && dev in core.devs && Memory !in core.live
    requires drv.named && drv.owned && drv.count == 1 && drv.devices == null && !dev.registered
    modifies core`live, drv, dev
    ensures core.Valid() && core.live == old(core.live) && ret == RamError(calls)
  {
    var priv;
    ret, priv := RamInit(core, drv, dev, sizeMb, calls);
    if ret == 0 {
      RamExit(core, drv, dev);
    }
  }
}
