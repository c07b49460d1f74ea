/**
 Registration in the character framework: drivers with their tables of devices, misc
 devices, and the ledger of kernel resources they hold.

 The results of the kernel calls are parameters, so what a method promises holds for
 every choice of which of them fails. Every release requires that the resource is held,
 so releasing twice or releasing what was never acquired would not verify. Resources are
 named after the object they belong to.
 */
module CharRegistry {
  import opened Kernel
  import opened DevNumbers

  datatype Resource =
    | Table(drv: Driver)
    | Region(drv: Driver)
    | Class(drv: Driver)
    | Cdev(dev: Dev)
    | Node(dev: Dev)
    | OpensAttr(dev: Dev)
    | MiscNode(misc: Misc)
    | Buffer(id: nat)

  /** drv->class: NULL, the error pointer of a failed class_create, or a class. */
  datatype ClassPtr = NullClass | ErrClass | LiveClass

  class Driver {
    const named: bool
    const owned: bool
    const count: nat
    const major: u32
    const number: u32             // MKDEV(major, 0)
    var devt: u32
    var cls: ClassPtr
    var devices: array?<Dev?>

    constructor (named: bool, owned: bool, count: nat, major: u32)
      ensures devices == null && cls == NullClass && devt == 0
      ensures this.named == named && this.owned == owned && this.count == count
      ensures this.major == major && number == Mkdev(major, 0)
    {
      this.named, this.owned, this.count, this.major := named, owned, count, major;
      number := Mkdev(major, 0);
      devices, cls, devt := null, NullClass, 0;
    }
  }

  class Dev {
    var driver: Driver?
    var index: nat
    var registered: bool
    var removing: bool
    var node: bool                // dev->device is not NULL
    var dir: bool                 // dev->debugfs_dir is not NULL

    constructor ()
      ensures !registered && !node && !dir
    {
      driver, index, registered, removing, node, dir := null, 0, false, false, false, false;
    }
  }

  class Misc {
    var registered: bool
    var removing: bool
    var dir: bool

    constructor ()
      ensures !registered && !dir
    {
      registered, removing, dir := false, false, false;
    }
  }

  // ----- What the kernel answers -----

  /** For calls that return an error number, 0 stands for success. */
  datatype DriverCalls = DriverCalls(table: bool, region: nat, devt: u32, cls: nat, root: bool)
  datatype DevCalls = DevCalls(cdev: nat, node: nat, attr: nat, dir: bool)
  datatype MiscCalls = MiscCalls(root: bool, node: nat, dir: bool)

  /** The kernel chooses a device number of a major other than 0. */
  predicate Possible(calls: DriverCalls) {
    calls.devt / MINORS > 0
  }

  /** What registration returns: the error of the first call that fails. */
  function DriverError(calls: DriverCalls): (e: int)
    ensures e == 0 <==> calls.table && calls.region == 0 && calls.cls == 0
    ensures !calls.table ==> e == -12
    ensures calls.table ==> -e == if calls.region != 0 then calls.region else calls.cls
  {
    if !calls.table then -ENOMEM else if calls.region != 0 then 0 - calls.region else 0 - calls.cls
  }

  function DevError(calls: DevCalls): (e: int)
    ensures e == 0 <==> calls.cdev == calls.node == calls.attr == 0
    ensures calls.cdev != 0 ==> -e == calls.cdev
    ensures calls.cdev == 0 ==> -e == if calls.node != 0 then calls.node else calls.attr
  {
    if calls.cdev != 0 then 0 - calls.cdev else if calls.node != 0 then 0 - calls.node else 0 - calls.attr
  }

  // ----- The debugfs root and its count -----

  /** nv_char_debugfs_init; `ok` says whether the directory is created. */
  function Enter(root: bool, refcnt: nat, ok: bool): (bool, nat) {
    if refcnt != 0 then (root, refcnt + 1) else if ok then (true, 1) else (false, 0)
  }

  /** nv_char_debugfs_exit. */
  function Leave(root: bool, refcnt: nat): (bool, nat) {
    if refcnt == 0 then (root, 0) else if refcnt == 1 then (false, 0) else (root, refcnt - 1)
  }

  // ----- The framework -----

  function DriverRes(drv: Driver): set<Resource> {
    {Table(drv), Region(drv), Class(drv)}
  }

  function DevRes(dev: Dev): set<Resource> {
    {Cdev(dev), Node(dev), OpensAttr(dev)}
  }

  function Held(d: Dev?): set<Resource> {
    if d == null then {} else DevRes(d)
  }

  class Core {
    ghost const drivers: set<Driver>
    ghost const devs: set<Dev>
    ghost const miscs: set<Misc>
    ghost var live: set<Resource>
    ghost var leaked: set<Resource>   // held by what is no longer registered
    var root: bool                    // nv_char_debugfs_root is not NULL
    var refcnt: nat
    ghost var users: set<Driver>      // registered drivers
    ghost var miscUsers: set<Misc>    // registered misc devices
    ghost var skewed: bool            // root creation failed, or a driver not registered was unregistered

    constructor (ghost drivers: set<Driver>, ghost devs: set<Dev>, ghost miscs: set<Misc>)
      requires forall v :: v in drivers ==> v.devices == null && v.cls != LiveClass
      requires forall d :: d in devs ==> !d.registered && !d.node && !d.dir
      requires forall m :: m in miscs ==> !m.registered && !m.dir
      ensures this.drivers == drivers && this.devs == devs && this.miscs == miscs
      ensures live == leaked == {} && !root && refcnt == 0 && !skewed
      ensures Valid()
    {
      this.drivers, this.devs, this.miscs := drivers, devs, miscs;
      live, leaked, root, refcnt, users, miscUsers, skewed := {}, {}, false, 0, {}, {}, false;
    }

    ghost predicate DriverOk(drv: Driver)
      reads this, drv
    {
      var up := drv.devices != null;
      && (Table(drv) in live <==> up)
      && (Region(drv) in live <==> up || Region(drv) in leaked)
      && (Class(drv) in live <==> up)
      && (drv.cls == LiveClass <==> up)
      && (drv in users <==> up)
      && (up ==>
            && Region(drv) !in leaked
            && drv.devices.Length == drv.count
            && (if drv.major != 0 then drv.devt == drv.number else drv.devt != 0))
    }

    /** A device in a table is registered, points back, and has the index of its slot. */
    ghost predicate TableOk(drv: Driver)
      reads drv, drv.devices, devs
    {
      drv.devices != null ==>
        forall i :: 0 <= i < drv.devices.Length && drv.devices[i] != null ==>
          var d := drv.devices[i];
          d in devs && d.registered && d.driver == drv && d.index == i
    }

    ghost predicate DevOk(d: Dev)
      reads this, d
    {
      && (Cdev(d) in live <==> d.registered)
      && (Node(d) in live <==> d.registered || Node(d) in leaked)
      && (d.registered ==> Node(d) !in leaked)
      && (OpensAttr(d) in live <==> d.registered)
      && (d.node <==> d.registered)
      && (d.dir ==> d.registered)
      && (d.registered ==> d.driver != null && d.driver in drivers && d.index < d.driver.count)
    }

    ghost predicate MiscOk(m: Misc)
      reads this, m
    {
      && (MiscNode(m) in live <==> m.registered)
      && (m in miscUsers <==> m.registered)
      && (m.dir ==> m.registered)
    }

    ghost predicate TablesApart()
      reads drivers
    {
      forall a, b :: a in drivers && b in drivers && a != b && a.devices != null ==> a.devices != b.devices
    }

    ghost predicate DebugfsOk()
      reads this`root, this`refcnt, this`users, this`miscUsers, this`skewed
    {
      && (root <==> refcnt > 0)
      && (!skewed ==> refcnt == |users| + |miscUsers|)
      && users <= drivers && miscUsers <= miscs
    }

    ghost function Tables(): set<array<Dev?>>
      reads drivers
    {
      set drv | drv in drivers && drv.devices != null :: drv.devices
    }

    ghost predicate Valid()
      reads this, drivers, devs, miscs, Tables()
    {
      && (forall drv :: drv in drivers ==> DriverOk(drv) && TableOk(drv))
      && (forall d :: d in devs ==> DevOk(d))
      && (forall m :: m in miscs ==> MiscOk(m))
      && TablesApart()
      && DebugfsOk()
    }

    lemma DriverFacts(drv: Driver)
      requires Valid() && drv in drivers
      ensures DriverOk(drv) && TableOk(drv) && DebugfsOk()
    {}

    lemma DevFacts(d: Dev)
      requires Valid() && d in devs
      ensures DevOk(d)
    {}

    lemma MiscFacts(m: Misc)
      requires Valid() && m in miscs
      ensures MiscOk(m) && DebugfsOk()
    {}

    // ----- Kernel calls -----

    /** A kernel call that acquires `r` or fails with error number `err`. */
    method Acquire(ghost r: Resource, err: nat) returns (ret: int)
      requires r !in live
      modifies this`live
      ensures ret == 0 - err
      ensures live == if err == 0 then old(live) + {r} else old(live)
    {
      if err == 0 {
        live := live + {r};
      }
      ret := 0 - err;
    }

    /** A kernel call that releases `r`. */
    method Release(ghost r: Resource)
      requires r in live
      modifies this`live
      ensures live == old(live) - {r}
    {
      live := live - {r};
    }

    /** kzalloc of a module's buffer. */
    method Allocate(buf: nat, ok: bool)
      requires Valid() && Buffer(buf) !in live
      modifies this`live
      ensures Valid()
      ensures live == if ok then old(live) + {Buffer(buf)} else old(live)
    {
      var ret := Acquire(Buffer(buf), if ok then 0 else ENOMEM);
      LiveChanged(buf);
    }

    /** kfree of a module's buffer. */
    method Free(buf: nat)
      requires Valid() && Buffer(buf) in live
      modifies this`live
      ensures Valid() && live == old(live) - {Buffer(buf)}
    {
      Release(Buffer(buf));
      LiveChanged(buf);
    }

    twostate lemma LiveChanged(buf: nat)
      requires old(Valid())
      requires unchanged(this`root, this`refcnt, this`users, this`miscUsers, this`skewed, this`leaked)
      requires unchanged(drivers) && unchanged(devs) && unchanged(miscs) && unchanged(Tables())
      requires forall r :: r != Buffer(buf) ==> (r in live <==> r in old(live))
      ensures Valid()
    {
      forall v | v in drivers
        ensures DriverOk(v) && TableOk(v)
      {
        assert old(DriverOk(v) && TableOk(v));
      }
      forall d | d in devs
        ensures DevOk(d)
      {
        assert old(DevOk(d));
      }
      forall m | m in miscs
        ensures MiscOk(m)
      {
        assert old(MiscOk(m));
      }
    }

    /** nv_char_debugfs_init; `ok` says whether the directory can be created. */
    method DebugfsInit(ok: bool)
      modifies this`root, this`refcnt, this`skewed
      ensures (root, refcnt) == Enter(old(root), old(refcnt), ok)
      ensures skewed == (old(skewed) || refcnt == 0)
    {
      var count := refcnt;
      refcnt := refcnt + 1;
      if count != 0 {
        return;
      }
      root := ok;
      if !root {
        refcnt := 0;
        skewed := true;
      }
    }

    /** nv_char_debugfs_exit. */
    method DebugfsExit()
      modifies this`root, this`refcnt
      ensures (root, refcnt) == Leave(old(root), old(refcnt))
    {
      if refcnt == 0 {
        return;
      }
      refcnt := refcnt - 1;
      if refcnt == 0 {
        root := false;
      }
    }

    /** A misc device becomes a user of the root. */
    method EnterMisc(misc: Misc, ok: bool)
      requires DebugfsOk() && misc in miscs && misc !in miscUsers
      modifies this`root, this`refcnt, this`skewed, this`miscUsers
      ensures DebugfsOk() && miscUsers == old(miscUsers) + {misc}
      ensures skewed == (old(skewed) || (old(refcnt) == 0 && !ok))
      ensures refcnt == if old(refcnt) > 0 || ok then old(refcnt) + 1 else 0
    {
      DebugfsInit(ok);
      miscUsers := miscUsers + {misc};
    }

    /** A misc device stops using it; the root goes with its last user. */
    method LeaveMisc(misc: Misc)
      requires DebugfsOk() && misc in miscUsers
      modifies this`root, this`refcnt, this`miscUsers
      ensures DebugfsOk() && miscUsers == old(miscUsers) - {misc}
      ensures root <==> old(refcnt) > 1
      ensures refcnt == if old(refcnt) > 0 then old(refcnt) - 1 else 0
    {
      DebugfsExit();
      miscUsers := miscUsers - {misc};
    }

    /** A driver becomes a user of the root. */
    method EnterDriver(drv: Driver, ok: bool)
      requires DebugfsOk() && drv in drivers && drv !in users
      modifies this`root, this`refcnt, this`skewed, this`users
      ensures DebugfsOk() && users == old(users) + {drv}
      ensures skewed == (old(skewed) || (old(refcnt) == 0 && !ok))
      ensures root <==> refcnt > 0
      ensures refcnt == if old(refcnt) > 0 || ok then old(refcnt) + 1 else 0
    {
      DebugfsInit(ok);
      users := users + {drv};
    }

    /** A driver stops using it, or one that is no user takes a use away from another. */
    method LeaveDriver(drv: Driver)
      requires DebugfsOk()
      modifies this`root, this`refcnt, this`users, this`skewed
      ensures DebugfsOk() && users == old(users) - {drv}
      ensures skewed == (old(skewed) || (drv !in old(users) && old(refcnt) > 0))
      ensures root <==> old(refcnt) > 1
      ensures refcnt == if old(refcnt) > 0 then old(refcnt) - 1 else 0
    {
      if drv !in users && refcnt > 0 {
        skewed := true;
      }
      DebugfsExit();
      users := users - {drv};
    }

    /** nv_char_debugfs_add_device: whether the device gets a directory. */
    method AddDir(ok: bool) returns (made: bool)
      ensures made <==> root && ok
    {
      if !root {
        return false;
      }
      made := ok;
    }

    // ----- Drivers -----

    /**
     The part of driver registration that can fail, with its unwind ladder. After a failed
     class_create the fields keep the region's number and the error pointer.
     */
    method AcquireDriver(drv: Driver, calls: DriverCalls) returns (ret: int)
      requires drv.devices == null && drv.cls != LiveClass && live !! DriverRes(drv) && Possible(calls)
      modifies this`live, drv
      ensures ret == DriverError(calls)
      ensures ret == 0 ==>
                && live == old(live) + DriverRes(drv) && drv.cls == LiveClass
                && (if drv.major != 0 then drv.devt == drv.number else drv.devt == calls.devt)
                && drv.devices != null && fresh(drv.devices) && drv.devices.Length == drv.count
                && forall i :: 0 <= i < drv.count ==> drv.devices[i] == null
      ensures ret != 0 ==> live == old(live) && drv.devices == null && drv.cls != LiveClass
      ensures ret != 0 && (!calls.table || calls.region != 0) ==> drv.devt == old(drv.devt) && drv.cls == old(drv.cls)
      ensures ret != 0 && calls.table && calls.region == 0 ==>
                drv.cls == ErrClass && drv.devt == if drv.major != 0 then drv.number else calls.devt
    {
      ret := Acquire(Table(drv), if calls.table then 0 else ENOMEM);
      if ret != 0 {
        return -ENOMEM;
      }
      var table := new Dev?[drv.count](_ => null);
      drv.devices := table;
      ret := Acquire(Region(drv), calls.region);
      if ret == 0 {
        drv.devt := if drv.major != 0 then drv.number else calls.devt;
        ret := Acquire(Class(drv), calls.cls);
        drv.cls := if ret == 0 then LiveClass else ErrClass;
        if ret == 0 {
          return;
        }
        Release(Region(drv));
      }
      Release(Table(drv));
      drv.devices := null;
    }

    /** Validity after a change that concerns one driver only. */
    twostate lemma DriverChanged(drv: Driver)
      requires old(Valid()) && drv in drivers
      requires forall v :: v in drivers && v != drv ==> unchanged(v)
      requires forall t :: t in old(Tables()) && t != old(drv.devices) ==> unchanged(t)
      requires forall d :: d in devs ==> unchanged(d)
      requires forall m :: m in miscs ==> unchanged(m)
      requires forall r :: r !in DriverRes(drv) ==> (r in live <==> r in old(live))
      requires forall r :: r !in DriverRes(drv) ==> (r in leaked <==> r in old(leaked))
      requires forall v :: v in drivers && v != drv ==> (v in users <==> v in old(users))
      requires miscUsers == old(miscUsers)
      requires drv.devices == null || fresh(drv.devices)
      requires DriverOk(drv) && TableOk(drv) && DebugfsOk()
      ensures Valid()
    {
      forall v | v in drivers
        ensures DriverOk(v) && TableOk(v)
      {
        if v != drv {
          assert old(DriverOk(v) && TableOk(v));
          assert v.devices != null ==> v.devices in old(Tables()) && v.devices != old(drv.devices);
        }
      }
      forall d | d in devs
        ensures DevOk(d)
      {
        assert old(DevOk(d));
      }
      forall m | m in miscs
        ensures MiscOk(m)
      {
        assert old(MiscOk(m));
      }
    }

    /** nv_char_driver_register. */
    method RegisterDriver(drv: Driver?, calls: DriverCalls) returns (ret: int)
      requires Valid() && Possible(calls)
      requires drv != null ==> drv in drivers && drv.devices == null && Region(drv) !in leaked
      modifies this`live, this`root, this`refcnt, this`users, this`skewed
      modifies if drv == null then {} else {drv}
      ensures Valid()
      ensures ret == if drv == null || !drv.named || !drv.owned || drv.count == 0 then -EINVAL else DriverError(calls)
      ensures ret == 0 ==>
                && live == old(live) + DriverRes(drv) && users == old(users) + {drv}
                && drv.devices != null && fresh(drv.devices) && drv.devices.Length == drv.count
                && (forall i :: 0 <= i < drv.devices.Length ==> drv.devices[i] == null)
                && (root <==> refcnt > 0)
                && skewed == (old(skewed) || (old(refcnt) == 0 && !calls.root))
                && refcnt == (if old(refcnt) > 0 || calls.root then old(refcnt) + 1 else 0)
      ensures ret != 0 ==>
                && live == old(live) && users == old(users) && (drv != null ==> drv.devices == null)
                && root == old(root) && refcnt == old(refcnt) && skewed == old(skewed)
      ensures ret != 0 && ret != -EINVAL && calls.table && calls.region == 0 ==>
                drv.cls == ErrClass && drv.devt == if drv.major != 0 then drv.number else calls.devt
    {
      if drv == null || !drv.named || drv.count == 0 || !drv.owned {
        return -EINVAL;
      }
      DriverFacts(drv);
      hide Valid, DebugfsOk;
      ret := AcquireDriver(drv, calls);
      if ret == 0 {
        EnterDriver(drv, calls.root);
      }
      DriverChanged(drv);
    }

    // ----- Devices -----

    /** Validity after a change that concerns one device and its driver's table only. */
    twostate lemma DevChanged(dev: Dev)
      requires old(Valid()) && dev in devs && dev.driver != null && dev.driver in drivers
      requires forall v :: v in drivers ==> unchanged(v)
      requires forall t :: t in old(Tables()) && t != dev.driver.devices ==> unchanged(t)
      requires forall d :: d in devs && d != dev ==> unchanged(d)
      requires forall m :: m in miscs ==> unchanged(m)
      requires forall r :: r !in DevRes(dev) ==> (r in live <==> r in old(live))
      requires forall r :: r !in DevRes(dev) ==> (r in leaked <==> r in old(leaked))
      requires users == old(users) && miscUsers == old(miscUsers)
      requires root == old(root) && refcnt == old(refcnt) && skewed == old(skewed)
      requires old(dev.registered) ==> old(dev.driver) == dev.driver
      requires DevOk(dev)
      requires dev.driver.devices != null ==>
                 forall i :: 0 <= i < dev.driver.devices.Length ==>
                   dev.driver.devices[i] == (if dev.registered && i == dev.index then dev
                                             else if old(dev.registered) && i == old(dev.index) then null
                                             else (var v := dev.driver; old(v.devices[i])))
      requires dev.registered ==> !old(dev.registered)
      ensures Valid()
    {
      var drv := dev.driver;
      forall v | v in drivers
        ensures DriverOk(v) && TableOk(v)
      {
        assert old(DriverOk(v) && TableOk(v));
        if v != drv && v.devices != null {
          assert v.devices in old(Tables()) && v.devices != drv.devices;
        }
      }
      forall d | d in devs
        ensures DevOk(d)
      {
        assert old(DevOk(d));
      }
      forall m | m in miscs
        ensures MiscOk(m)
      {
        assert old(MiscOk(m));
      }
    }

    /** The calls of device registration that can fail, with the unwinding after each. */
    method AcquireDev(dev: Dev, calls: DevCalls) returns (ret: int)
      requires live !! DevRes(dev) && !dev.node
      modifies this`live, dev`node
      ensures ret == DevError(calls)
      ensures ret == 0 ==> live == old(live) + DevRes(dev) && dev.node
      ensures ret != 0 ==> live == old(live) && !dev.node
    {
      ret := Acquire(Cdev(dev), calls.cdev);
      if ret != 0 {
        return;
      }
      ret := Acquire(Node(dev), calls.node);
      if ret != 0 {
        dev.node := false;
        Release(Cdev(dev));
        return;
      }
      dev.node := true;
      ret := Acquire(OpensAttr(dev), calls.attr);
      if ret != 0 {
        Release(Node(dev));
        dev.node := false;
        Release(Cdev(dev));
      }
    }

    /** Lines 678-724: everything after the argument checks. */
    method RegisterAt(drv: Driver, dev: Dev, index: nat, calls: DevCalls) returns (ret: int)
      requires Valid() && drv in drivers && drv.devices != null && dev in devs
      requires !dev.registered && Node(dev) !in leaked && index < drv.count
      modifies this`live, drv.devices, dev
      ensures Valid() && ret == DevError(calls)
      ensures dev.registered <==> ret == 0
      ensures ret == 0 ==>
                && live == old(live) + DevRes(dev)
                && dev.driver == drv && dev.index == index && !dev.removing
                && drv.devices[..] == old(drv.devices[..])[index := dev]
                && (dev.dir <==> root && calls.dir)
      ensures ret != 0 ==> live == old(live) && drv.devices[..] == old(drv.devices[..])
    {
      DevFacts(dev);
      DriverFacts(drv);
      dev.driver, dev.index, dev.removing := drv, index, false;
      ret := AcquireDev(dev, calls);
      if ret == 0 {
        dev.dir := AddDir(calls.dir);
        drv.devices[index] := dev;
        dev.registered := true;
      }
      DevChanged(dev);
    }

    /** nv_char_device_register. */
    method RegisterDevice(drv: Driver?, dev: Dev?, named: bool, index: nat, calls: DevCalls) returns (ret: int)
      requires Valid()
      requires drv != null ==> drv in drivers && drv.devices != null
      requires dev != null ==> dev in devs && Node(dev) !in leaked
      modifies this`live
      modifies if drv == null then {} else {drv.devices}
      modifies if dev == null then {} else {dev}
      ensures Valid()
      ensures ret == if drv == null || dev == null || !named || index >= drv.count then -EINVAL
                     else if old(dev.registered) then -EBUSY else DevError(calls)
      ensures ret == 0 ==>
                && live == old(live) + DevRes(dev)
                && dev.registered && dev.driver == drv && dev.index == index && !dev.removing
                && drv.devices[..] == old(drv.devices[..])[index := dev]
                && (dev.dir <==> root && calls.dir)
      ensures ret != 0 ==>
                && live == old(live)
                && (drv != null ==> drv.devices[..] == old(drv.devices[..]))
                && (dev != null ==> dev.registered == old(dev.registered))
    {
      if drv == null || dev == null || !named || index >= drv.count {
        return -EINVAL;
      }
      if dev.registered {
        return -EBUSY;
      }
      ret := RegisterAt(drv, dev, index, calls);
    }

    /** device_destroy: it looks for the node in the class; without a class, `found` says whether it finds it. */
    method DestroyNode(dev: Dev, cls: ClassPtr, found: bool)
      requires cls != ErrClass && Node(dev) in live
      modifies this`live, this`leaked
      ensures live == if cls == LiveClass || found then old(live) - {Node(dev)} else old(live)
      ensures leaked == if cls == LiveClass || found then old(leaked) else old(leaked) + {Node(dev)}
    {
      if cls == LiveClass || found {
        Release(Node(dev));
      } else {
        leaked := leaked + {Node(dev)};
      }
    }

    /** Lines 755-759. */
    method ReleaseNode(dev: Dev, found: bool)
      requires dev.driver != null && dev.driver.cls != ErrClass
      requires dev.node ==> {Node(dev), OpensAttr(dev)} <= live
      modifies this`live, this`leaked, dev`node
      ensures !dev.node
      ensures !old(dev.node) ==> live == old(live) && leaked == old(leaked)
      ensures old(dev.node) ==>
                var gone := dev.driver.cls == LiveClass || found;
                && live == old(live) - {OpensAttr(dev)} - (if gone then {Node(dev)} else {})
                && leaked == if gone then old(leaked) else old(leaked) + {Node(dev)}
    {
      if dev.node {
        Release(OpensAttr(dev));
        DestroyNode(dev, dev.driver.cls, found);
        dev.node := false;
      }
    }

    /** Lines 753-769, on the ledger. */
    method GiveBackDev(dev: Dev, found: bool)
      requires DevOk(dev) && dev.registered && dev.driver.cls != ErrClass
      modifies this`live, this`leaked, dev`node, dev`dir, dev`registered
      ensures DevOk(dev) && !dev.registered && !dev.dir && DevRes(dev) <= old(live)
      ensures var gone := dev.driver.cls == LiveClass || found;
              && live == old(live) - (if gone then DevRes(dev) else DevRes(dev) - {Node(dev)})
              && leaked == if gone then old(leaked) else old(leaked) + {Node(dev)}
    {
      dev.dir := false;
      ReleaseNode(dev, found);
      Release(Cdev(dev));
      dev.registered := false;
    }

    /** Lines 747-769 for a registered device. */
    method RemoveDevice(dev: Dev, found: bool)
      requires Valid() && dev in devs && dev.registered && dev.driver.cls != ErrClass
      modifies this`live, this`leaked, dev
      modifies if dev.driver.devices == null then {} else {dev.driver.devices}
      ensures Valid() && !dev.registered && dev.removing && !dev.dir
      ensures dev.driver == old(dev.driver) && dev.index == old(dev.index) && DevRes(dev) <= old(live)
      ensures var gone := dev.driver.devices != null || found;
              && live == old(live) - (if gone then DevRes(dev) else DevRes(dev) - {Node(dev)})
              && leaked == if gone then old(leaked) else old(leaked) + {Node(dev)}
      ensures dev.driver.devices != null ==>
                dev.driver.devices[..] == (var v := dev.driver; old(v.devices[..]))[dev.index := null]
    {
      DevFacts(dev);
      DriverFacts(dev.driver);
      hide Valid, TablesApart, DebugfsOk, MiscOk;
      dev.removing := true;
      if dev.driver != null && dev.driver.devices != null {
        dev.driver.devices[dev.index] := null;
      }
      GiveBackDev(dev, found);
      DevChanged(dev);
    }

    /**
     nv_char_device_unregister, without the wait: the protocol of open and remove is
     modelled on its own. The slot cleared is the one its driver and index name. The cdev
     and the attribute are released once; so is the node, unless the driver is gone and
     device_destroy does not find it.
     */
    method UnregisterDevice(dev: Dev?, found: bool)
      requires Valid()
      requires dev != null ==> dev in devs && (dev.registered ==> dev.driver.cls != ErrClass)
      modifies this`live, this`leaked
      modifies if dev == null || !dev.registered then {} else {dev}
      modifies if dev == null || !dev.registered || dev.driver.devices == null then {} else {dev.driver.devices}
      ensures Valid()
      ensures dev == null || !old(dev.registered) ==> live == old(live) && leaked == old(leaked)
      ensures dev != null ==> !dev.registered && dev.driver == old(dev.driver) && dev.index == old(dev.index)
      ensures dev != null && old(dev.registered) ==>
                var gone := dev.driver.devices != null || found;
                && DevRes(dev) <= old(live)
                && live == old(live) - (if gone then DevRes(dev) else DevRes(dev) - {Node(dev)})
                && leaked == (if gone then old(leaked) else old(leaked) + {Node(dev)})
                && dev.removing && !dev.dir
                && (dev.driver.devices != null ==>
                      dev.driver.devices[..] == (var v := dev.driver; old(v.devices[..]))[dev.index := null])
    {
      if dev == null || !dev.registered {
        return;
      }
      RemoveDevice(dev, found);
    }

    // ----- Whose slot is taken -----

    /** Each registered device of the driver sits in the slot its index names. */
    ghost predicate OwnSlots(drv: Driver)
      reads drv, drv.devices, devs
    {
      forall d :: d in devs && d.registered && d.driver == drv ==>
        drv.devices != null && d.index < drv.devices.Length && drv.devices[d.index] == d
    }

    /** The registered devices of a driver that do not sit in the slot their index names. */
    ghost function Displaced(drv: Driver): (r: set<Dev>)
      reads drv, drv.devices, devs
      ensures r == {} <==> OwnSlots(drv)
    {
      var r := set d | d in devs && d.registered && d.driver == drv
                       && !(drv.devices != null && d.index < drv.devices.Length && drv.devices[d.index] == d);
      assert OwnSlots(drv) <==> forall d :: d in devs ==> d !in r;
      r
    }

    /** No device has been displaced from its slot. */
    ghost predicate Housed()
      reads this, drivers, devs, Tables()
    {
      forall v :: v in drivers ==> OwnSlots(v)
    }

    /** What a registration changes, for the tables. */
    twostate predicate TookSlot(dev: Dev)
      reads this, drivers, devs, Tables()
    {
      && dev in devs && dev.registered && !old(dev.registered)
      && dev.driver != null && dev.driver in drivers
      && (forall v :: v in drivers ==> unchanged(v))
      && (forall t :: t in old(Tables()) && t != dev.driver.devices ==> unchanged(t))
      && (forall d :: d in devs && d != dev ==> unchanged(d))
      && dev.driver.devices != null && dev.index < dev.driver.devices.Length
      && dev.driver.devices[..] == (var v := dev.driver; old(v.devices[..]))[dev.index := dev]
    }

    /** The slots of the driver stay its devices' own exactly if the one taken was free. */
    twostate lemma OwnSlotsAfter(dev: Dev)
      requires old(Valid()) && TookSlot(dev)
      requires var v := dev.driver; old(OwnSlots(v))
      ensures OwnSlots(dev.driver) <==> (var v, i := dev.driver, dev.index; old(v.devices[i])) == null
    {
      var drv, index := dev.driver, dev.index;
      var tab := old(drv.devices[..]);
      assert old(TableOk(drv));
      var was := tab[index];
      if was != null {
        assert old(drv.devices[index]) == was;
        assert was in devs && was != dev && was.registered && was.driver == drv && was.index == index;
      } else {
        forall d | d in devs && d.registered && d.driver == drv
          ensures d.index < drv.devices.Length && drv.devices[d.index] == d
        {
          if d != dev {
            assert old(d.registered && d.driver == drv);
            assert tab[d.index] == d;
          }
        }
      }
    }

    twostate lemma OthersKeepSlots(dev: Dev)
      requires old(Valid()) && TookSlot(dev)
      ensures forall v :: v in drivers && v != dev.driver && old(OwnSlots(v)) ==> OwnSlots(v)
    {
      forall v | v in drivers && v != dev.driver && old(OwnSlots(v))
        ensures OwnSlots(v)
      {
        assert old(TablesApart());
        forall d | d in devs && d.registered && d.driver == v
          ensures v.devices != null && d.index < v.devices.Length && v.devices[d.index] == d
        {
          assert d != dev;
          assert v.devices in old(Tables());
        }
      }
    }

    /** The slots of a driver that has no registered devices, and of all others as they were. */
    twostate lemma HousedWithout(drv: Driver)
      requires old(Housed()) && drv in drivers
      requires forall v :: v in drivers && v != drv ==> unchanged(v) && (v.devices != null ==> unchanged(v.devices))
      requires forall d :: d in devs && d.registered ==> d.driver != drv && unchanged(d)
      ensures Housed()
    {
      forall v | v in drivers
        ensures OwnSlots(v)
      {
        assert old(OwnSlots(v));
      }
    }

    /** A registration into a free slot displaces nobody. */
    twostate lemma HousedAfter(dev: Dev)
      requires old(Valid()) && old(Housed()) && TookSlot(dev)
      requires (var v, i := dev.driver, dev.index; old(v.devices[i])) == null
      ensures Housed()
    {
      var drv := dev.driver;
      assert old(OwnSlots(drv));
      OwnSlotsAfter(dev);
      OthersKeepSlots(dev);
      hide OwnSlots, Valid, TookSlot;
      forall v | v in drivers
        ensures OwnSlots(v)
      {
        assert old(OwnSlots(v));
      }
    }

    /** A registration that fails displaces nobody. */
    twostate lemma HousedStill(dev: Dev)
      requires old(Housed()) && !dev.registered
      requires forall v :: v in drivers ==> unchanged(v)
      requires forall t :: t in old(Tables()) ==> t[..] == old(t[..])
      requires forall d :: d in devs && d != dev ==> unchanged(d)
      ensures Housed()
    {
      forall v | v in drivers
        ensures OwnSlots(v)
      {
        assert old(OwnSlots(v));
        assert v.devices != null ==> v.devices in old(Tables());
        forall d | d in devs && d.registered && d.driver == v
          ensures v.devices != null && d.index < v.devices.Length && v.devices[d.index] == d
        {
          assert v.devices[d.index] == v.devices[..][d.index];
        }
      }
    }

    /** A device that leaves its own slot takes nobody's. */
    twostate lemma HousedWithoutDev(dev: Dev)
      requires old(Valid()) && old(Housed()) && dev in devs && old(dev.registered) && !dev.registered
      requires dev.driver != null && dev.driver == old(dev.driver) && dev.index == old(dev.index)
      requires forall v :: v in drivers ==> unchanged(v)
      requires forall t :: t in old(Tables()) && t != dev.driver.devices ==> unchanged(t)
      requires forall d :: d in devs && d != dev ==> unchanged(d)
      requires dev.driver.devices != null && dev.index < dev.driver.devices.Length
      requires dev.driver.devices[..] == (var v := dev.driver; old(v.devices[..]))[dev.index := null]
      ensures Housed()
    {
      var drv := dev.driver;
      assert old(DevOk(dev)) && old(OwnSlots(drv)) && old(TablesApart());
      forall v | v in drivers
        ensures OwnSlots(v)
      {
        assert old(OwnSlots(v));
        forall d | d in devs && d.registered && d.driver == v
          ensures v.devices != null && d.index < v.devices.Length && v.devices[d.index] == d
        {
          assert d != dev;
          assert v != drv ==> v.devices in old(Tables()) && v.devices != drv.devices;
        }
      }
    }

    // ----- Misc devices -----

    twostate lemma MiscChanged(misc: Misc)
      requires old(Valid()) && misc in miscs
      requires forall v :: v in drivers ==> unchanged(v)
      requires forall t :: t in old(Tables()) ==> unchanged(t)
      requires forall d :: d in devs ==> unchanged(d)
      requires forall m :: m in miscs && m != misc ==> unchanged(m)
      requires forall r :: r != MiscNode(misc) ==> (r in live <==> r in old(live))
      requires leaked == old(leaked) && users == old(users)
      requires forall m :: m in miscs && m != misc ==> (m in miscUsers <==> m in old(miscUsers))
      requires MiscOk(misc) && DebugfsOk()
      ensures Valid()
    {
      forall v | v in drivers
        ensures DriverOk(v) && TableOk(v)
      {
        assert old(DriverOk(v) && TableOk(v));
        assert v.devices != null ==> v.devices in old(Tables());
      }
      forall d | d in devs
        ensures DevOk(d)
      {
        assert old(DevOk(d));
      }
      forall m | m in miscs
        ensures MiscOk(m)
      {
        assert m != misc ==> old(MiscOk(m));
      }
    }

    /** Lines 799-817: a use of the root and the node, or neither. */
    method AcquireMisc(misc: Misc, calls: MiscCalls) returns (ret: int)
      requires DebugfsOk() && MiscOk(misc) && misc in miscs && !misc.registered
      modifies this`live, this`root, this`refcnt, this`miscUsers, this`skewed, misc`dir, misc`registered
      ensures DebugfsOk() && MiscOk(misc) && ret == 0 - calls.node
      ensures misc.registered <==> ret == 0
      ensures live == if ret == 0 then old(live) + {MiscNode(misc)} else old(live)
      ensures miscUsers == if ret == 0 then old(miscUsers) + {misc} else old(miscUsers)
      ensures skewed == (old(skewed) || (old(refcnt) == 0 && !calls.root))
      ensures refcnt == if ret == 0 && (old(refcnt) > 0 || calls.root) then old(refcnt) + 1 else old(refcnt)
      ensures ret == 0 ==> (misc.dir <==> refcnt > 0 && calls.dir)
    {
      hide DebugfsOk;
      EnterMisc(misc, calls.root);
      ret := Acquire(MiscNode(misc), calls.node);
      if ret != 0 {
        LeaveMisc(misc);
      } else {
        misc.dir := AddDir(calls.dir);
        misc.registered := true;
      }
    }

    /** Lines 786-818: everything after the argument checks. */
    method AddMisc(misc: Misc, calls: MiscCalls) returns (ret: int)
      requires Valid() && misc in miscs && !misc.registered
      modifies this`live, this`root, this`refcnt, this`miscUsers, this`skewed, misc
      ensures Valid() && ret == 0 - calls.node
      ensures misc.registered <==> ret == 0
      ensures live == if ret == 0 then old(live) + {MiscNode(misc)} else old(live)
      ensures ret == 0 ==> !misc.removing
      ensures ret != 0 ==> miscUsers == old(miscUsers)
      ensures skewed == (old(skewed) || (old(refcnt) == 0 && !calls.root))
      ensures refcnt == if ret == 0 && (old(refcnt) > 0 || calls.root) then old(refcnt) + 1 else old(refcnt)
      ensures (root <==> refcnt > 0) && (ret == 0 ==> (misc.dir <==> root && calls.dir))
    {
      MiscFacts(misc);
      hide Valid, TablesApart, DebugfsOk;
      misc.removing := false;
      ret := AcquireMisc(misc, calls);
      MiscChanged(misc);
    }

    /** nv_char_misc_register. */
    method RegisterMisc(misc: Misc?, named: bool, owned: bool, calls: MiscCalls) returns (ret: int)
      requires Valid() && (misc != null ==> misc in miscs)
      modifies this`live, this`root, this`refcnt, this`miscUsers, this`skewed
      modifies if misc == null then {} else {misc}
      ensures Valid()
      ensures ret == if misc == null || !named || !owned then -EINVAL
                     else if old(misc.registered) then -EBUSY else 0 - calls.node
      ensures ret == 0 ==> misc.registered && !misc.removing && live == old(live) + {MiscNode(misc)}
      ensures ret != 0 ==>
                && live == old(live) && miscUsers == old(miscUsers)
                && (misc != null ==> misc.registered == old(misc.registered))
      ensures refcnt == if ret == 0 && (old(refcnt) > 0 || calls.root) then old(refcnt) + 1 else old(refcnt)
      ensures (root <==> refcnt > 0) && (ret == 0 ==> (misc.dir <==> root && calls.dir))
      ensures old(skewed) ==> skewed
      ensures skewed ==> old(skewed) || (old(refcnt) == 0 && !calls.root)
    {
      assert root <==> refcnt > 0;
      if misc == null || !named || !owned {
        return -EINVAL;
      }
      if misc.registered {
        return -EBUSY;
      }
      ret := AddMisc(misc, calls);
    }

    /** nv_char_misc_unregister, without the wait. */
    method UnregisterMisc(misc: Misc?)
      requires Valid() && (misc != null ==> misc in miscs)
      modifies this`live, this`root, this`refcnt, this`miscUsers
      modifies if misc == null || !misc.registered then {} else {misc}
      ensures Valid()
      ensures misc == null || !old(misc.registered) ==> live == old(live)
      ensures misc != null ==> !misc.registered
      ensures misc == null || !old(misc.registered) ==> root == old(root) && refcnt == old(refcnt)
      ensures misc != null && old(misc.registered) ==>
                && MiscNode(misc) in old(live) && live == old(live) - {MiscNode(misc)} && misc.removing && !misc.dir
                && refcnt == (if old(refcnt) > 0 then old(refcnt) - 1 else 0) && (root <==> old(refcnt) > 1)
    {
      if misc == null || !misc.registered {
        return;
      }
      MiscFacts(misc);
      hide Valid, TablesApart, DebugfsOk;
      misc.removing := true;
      Release(MiscNode(misc));
      misc.dir := false;
      LeaveMisc(misc);
      misc.registered := false;
      MiscChanged(misc);
    }

    // ----- What the debugfs count says -----

    /** If the count was never skewed, it is that of the live drivers and misc devices. */
    lemma CountIsLive()
      requires Valid() && !skewed
      ensures refcnt == |set v | v in drivers && v.devices != null| + |set m | m in miscs && m.registered|
    {
      assert forall v :: v in drivers ==> DriverOk(v);
      assert forall m :: m in miscs ==> MiscOk(m);
      assert users == set v | v in drivers && v.devices != null;
      assert miscUsers == set m | m in miscs && m.registered;
    }

    /** No debugfs directory outlives the root. */
    ghost predicate DirsUnderRoot()
      reads this, devs, miscs
    {
      && (forall d :: d in devs && d.dir ==> root)
      && (forall m :: m in miscs && m.dir ==> root)
    }

    /**
     Unless the count is skewed, a directory outlives the root exactly when the root is
     gone and a displaced device has one.
     */
    lemma DirsUnderRootIff()
      requires Valid() && !skewed
      ensures DirsUnderRoot() <==> root || forall v, d :: v in drivers && d in Displaced(v) ==> !d.dir
    {
      if !root {
        assert users == {} && miscUsers == {};
        forall m | m in miscs
          ensures !m.dir
        {
          MiscFacts(m);
        }
        forall d | d in devs && d.dir
          ensures d.driver in drivers && d in Displaced(d.driver)
        {
          DevFacts(d);
          DriverFacts(d.driver);
        }
      }
    }

    /** As long as no device is displaced and the count is not skewed, no directory outlives the root. */
    lemma HousedDirs()
      requires Valid() && !skewed && Housed()
      ensures DirsUnderRoot()
    {
      forall d | d in devs && d.dir
        ensures root
      {
        assert DevOk(d);
        assert OwnSlots(d.driver) && DriverOk(d.driver);
        assert d.driver in users;
      }
      forall m | m in miscs && m.dir
        ensures root
      {
        assert MiscOk(m) && m in miscUsers;
      }
    }

    // ----- Tearing a driver down -----

    /** Displaced devices are those that the loop will not find in the table. */
    lemma DisplacedIff(drv: Driver)
      requires Valid() && drv in drivers && drv.devices != null
      ensures forall d :: d in Displaced(drv) <==> d in devs && d.registered && d.driver == drv && d !in drv.devices[..]
    {
      DriverFacts(drv);
      hide Valid, DriverOk;
      forall d | d in devs && d.registered && d.driver == drv
        ensures d in drv.devices[..] <==> d.index < drv.devices.Length && drv.devices[d.index] == d
      {
        if d in drv.devices[..] {
          var i :| 0 <= i < drv.devices.Length && drv.devices[i] == d;
        }
      }
    }

    /** One turn of the teardown loop: it reads slot `i` and clears the slot its device names. */
    method UnregisterSlot(drv: Driver, i: nat)
      requires Valid() && drv in drivers && drv.devices != null && i < drv.devices.Length
      modifies this`live, this`leaked, drv.devices
      modifies if drv.devices[i] == null then {} else {drv.devices[i]}
      ensures Valid() && leaked == old(leaked)
      ensures drv.devices[..] == old(drv.devices[..])[i := null]
      ensures var d := old(drv.devices[i]); d != null ==> old(d.registered) && !d.registered && d.driver == drv
      ensures live == old(live) - Held(old(drv.devices[i]))
    {
      DriverFacts(drv);
      if drv.devices[i] != null {
        UnregisterDevice(drv.devices[i], true);
      }
    }

    /** The loop has cleared the first `i` slots of a table that was `tab`. */
    ghost predicate Cleared(drv: Driver, tab: seq<Dev?>, i: nat)
      reads drv, drv.devices, tab
    {
      && drv.devices != null && drv.devices.Length == |tab|
      && (forall k :: 0 <= k < |tab| ==> drv.devices[k] == if k < i then null else tab[k])
      && (forall k :: 0 <= k < i <= |tab| && tab[k] != null ==> !tab[k].registered && tab[k].driver == drv)
    }

    /** One more turn of the loop. */
    method UnregisterNext(drv: Driver, ghost tab: seq<Dev?>, i: nat)
      requires Valid() && drv in drivers && drv.devices != null && i < drv.devices.Length && Cleared(drv, tab, i)
      modifies this`live, this`leaked, drv.devices
      modifies if drv.devices[i] == null then {} else {drv.devices[i]}
      ensures Valid() && leaked == old(leaked) && Cleared(drv, tab, i + 1)
      ensures live == old(live) - Held(tab[i])
    {
      hide Valid, Held;
      UnregisterSlot(drv, i);
    }

    /** The teardown loop. */
    method UnregisterAll(drv: Driver)
      requires Valid() && drv in drivers && drv.devices != null
      modifies this`live, this`leaked, drv.devices, set d: Dev | d in drv.devices[..]
      ensures Valid() && leaked == old(leaked)
      ensures forall i :: 0 <= i < drv.devices.Length ==> drv.devices[i] == null
      ensures forall d: Dev :: d in old(drv.devices[..]) ==> !d.registered && d.driver == drv
      ensures live == old(live) - TableRes(old(drv.devices[..]))
    {
      ghost var tab := drv.devices[..];
      DriverFacts(drv);
      assert drv.count == drv.devices.Length && tab[..0] == [];
      hide Valid, DevOk, TableOk, DriverOk, TablesApart, DebugfsOk, MiscOk, DevRes, Held;
      var i := 0;
      while i < drv.count
        invariant 0 <= i <= drv.count == |tab|
        invariant Valid() && leaked == old(leaked)
        invariant Cleared(drv, tab, i)
        invariant live == old(live) - TableRes(tab[..i])
      {
        TableResSnoc(tab, i);
        assert tab[i] != null ==> tab[i] in tab;
        UnregisterNext(drv, tab, i);
        i := i + 1;
      }
      assert tab[..i] == tab;
    }

    /** Lines 535-547: a region whose number is 0 is not released. */
    method ReleaseClassAndRegion(drv: Driver)
      requires drv.cls == LiveClass ==> Class(drv) in live
      requires drv.devt != 0 ==> Region(drv) in live
      modifies this`live, this`leaked, drv`cls, drv`devt
      ensures live == old(live) - (if old(drv.cls) == LiveClass then {Class(drv)} else {})
                      - (if old(drv.devt) != 0 then {Region(drv)} else {})
      ensures leaked == if old(drv.devt) == 0 && Region(drv) in old(live) then old(leaked) + {Region(drv)}
                        else old(leaked)
      ensures drv.cls == NullClass && drv.devt == 0
    {
      if drv.cls != NullClass && drv.cls != ErrClass {
        Release(Class(drv));
      }
      if drv.devt != 0 {
        Release(Region(drv));
      } else if Region(drv) in live {
        leaked := leaked + {Region(drv)};
      }
      drv.cls := NullClass;
      drv.devt := 0;
    }

    /** What a registered driver gives back: everything, but the region only if its number is not 0. */
    ghost function GivenBack(drv: Driver, devt: u32): set<Resource> {
      if devt != 0 then DriverRes(drv) else DriverRes(drv) - {Region(drv)}
    }

    /** Lines 528-549, on the ledger. */
    method GiveBack(drv: Driver)
      requires DriverOk(drv) && DebugfsOk() && drv in drivers
      requires drv.devices == null ==> drv.devt == 0
      modifies this`live, this`leaked, this`root, this`refcnt, this`users, this`skewed, drv
      ensures DriverOk(drv) && DebugfsOk()
      ensures drv.devices == null && drv.cls == NullClass && drv.devt == 0
      ensures old(drv.devices) == null ==> live == old(live) && leaked == old(leaked)
      ensures old(drv.devices) != null ==>
                && DriverRes(drv) <= old(live) && live == old(live) - GivenBack(drv, old(drv.devt))
                && leaked == old(leaked) + (DriverRes(drv) - GivenBack(drv, old(drv.devt)))
      ensures users == old(users) - {drv} && (root <==> old(refcnt) > 1)
      ensures refcnt == if old(refcnt) > 0 then old(refcnt) - 1 else 0
      ensures skewed == (old(skewed) || (old(drv.devices) == null && old(refcnt) > 0))
    {
      if drv.devices != null {
        Release(Table(drv));
        drv.devices := null;
      }
      LeaveDriver(drv);
      hide DebugfsOk;
      ReleaseClassAndRegion(drv);
    }

    /** Lines 528-549: everything after the loop. */
    method ReleaseDriver(drv: Driver)
      requires Valid() && drv in drivers
      requires drv.devices == null ==> drv.devt == 0
      modifies this`live, this`leaked, this`root, this`refcnt, this`users, this`skewed, drv
      ensures Valid()
      ensures drv.devices == null && drv.cls == NullClass && drv.devt == 0
      ensures old(drv.devices) == null ==> live == old(live) && leaked == old(leaked)
      ensures old(drv.devices) != null ==>
                && DriverRes(drv) <= old(live) && live == old(live) - GivenBack(drv, old(drv.devt))
                && leaked == old(leaked) + (DriverRes(drv) - GivenBack(drv, old(drv.devt)))
      ensures users == old(users) - {drv} && (root <==> old(refcnt) > 1)
      ensures refcnt == if old(refcnt) > 0 then old(refcnt) - 1 else 0
      ensures skewed == (old(skewed) || (old(drv.devices) == null && old(refcnt) > 0))
    {
      DriverFacts(drv);
      hide Valid, TablesApart, DebugfsOk;
      GiveBack(drv);
      DriverChanged(drv);
    }

    /**
     nv_char_driver_unregister. A driver that is not registered has nothing to release,
     but takes a use of the debugfs root away from another.
     */
    method UnregisterDriver(drv: Driver?)
      requires Valid()
      requires drv != null ==> drv in drivers && (drv.devices == null ==> drv.devt == 0)
      modifies this`live, this`leaked, this`root, this`refcnt, this`users, this`skewed
      modifies if drv == null then {} else {drv}
      modifies if drv == null || drv.devices == null then {} else {drv.devices}
      modifies set d: Dev | drv != null && drv.devices != null && d in drv.devices[..]
      ensures Valid()
      ensures drv == null || old(drv.devices) == null ==> live == old(live) && leaked == old(leaked)
      ensures drv == null ==> users == old(users) && refcnt == old(refcnt) && skewed == old(skewed)
      ensures drv != null ==>
                && drv.devices == null && drv.cls == NullClass && drv.devt == 0
                && users == old(users) - {drv} && (root <==> old(refcnt) > 1)
                && refcnt == (if old(refcnt) > 0 then old(refcnt) - 1 else 0)
                && skewed == (old(skewed) || (old(drv.devices) == null && old(refcnt) > 0))
      ensures drv != null && old(drv.devices) != null ==>
                && (forall d: Dev :: d in old(drv.devices[..]) ==> !d.registered && d.driver == drv)
                && DriverRes(drv) <= old(live)
                && live == old(live) - TableRes(old(drv.devices[..])) - GivenBack(drv, old(drv.devt))
                && leaked == old(leaked) + (DriverRes(drv) - GivenBack(drv, old(drv.devt)))
    {
      if drv == null {
        return;
      }
      if drv.devices != null {
        UnregisterAll(drv);
      }
      ReleaseDriver(drv);
    }

    /** A registered driver's region is not released exactly if its static major is a multiple of 4096. */
    lemma RegionKeptIff(drv: Driver)
      requires Valid() && drv in drivers && drv.devices != null && drv.number == Mkdev(drv.major, 0)
      ensures Region(drv) !in GivenBack(drv, drv.devt) <==> drv.major != 0 && drv.major % MAJORS == 0
    {
      DriverFacts(drv);
      MkdevZeroIff(drv.major);
      hide Mkdev;
    }

    /**
     The teardown leaves none of a driver's devices registered exactly if each of them
     sat in its own slot.
     */
    method TeardownIsComplete(drv: Driver) returns (ghost complete: bool)
      requires Valid() && drv in drivers && drv.devices != null
      modifies this`live, this`leaked, this`root, this`refcnt, this`users, this`skewed
      modifies drv, drv.devices, set d: Dev | d in drv.devices[..]
      ensures Valid()
      ensures complete == forall d :: d in devs && d.driver == drv ==> !d.registered
      ensures complete <==> old(OwnSlots(drv))
    {
      ghost var tab := drv.devices[..];
      ghost var displaced := Displaced(drv);
      DisplacedIff(drv);
      DriverFacts(drv);
      assert forall d: Dev :: d in tab ==> d in devs && d.driver == drv;
      hide Valid, OwnSlots, Displaced, DriverOk, TableOk, DebugfsOk, TablesApart, TableRes, GivenBack;
      UnregisterDriver(drv);
      assert forall d :: d in devs && d !in tab ==> unchanged(d);
      complete := forall d :: d in devs && d.driver == drv ==> !d.registered;
      assert complete <==> displaced == {};
    }

    /**
     As long as the count is right and the other drivers' devices are in their own slots,
     that is: the root is still there, or no displaced device of the driver has a directory.
     */
    method TeardownAndDisplaced(drv: Driver)
      requires Valid() && drv in drivers && drv.devices != null && !skewed
      requires forall v :: v in drivers && v != drv ==> OwnSlots(v)
      modifies this`live, this`leaked, this`root, this`refcnt, this`users, this`skewed
      modifies drv, drv.devices, set d: Dev | d in drv.devices[..]
      ensures Valid()
      ensures DirsUnderRoot() <==> root || forall d :: d in old(Displaced(drv)) ==> !d.dir
    {
      ghost var tab, displaced := drv.devices[..], Displaced(drv);
      DisplacedIff(drv);
      DriverFacts(drv);
      assert forall d: Dev :: d in tab ==> d in devs && d.driver == drv;
      LastUser(drv);
      hide OwnSlots, TableRes, GivenBack, TablesApart, DriverRes;
      TeardownAndDirs(drv);
    }

    /** If the driver is the only user, every other registered device is gone, and every misc device. */
    lemma LastUser(drv: Driver)
      requires Valid() && drv in drivers && drv.devices != null && !skewed
      requires forall v :: v in drivers && v != drv ==> OwnSlots(v)
      ensures refcnt <= 1 ==>
                && (forall m :: m in miscs ==> !m.dir)
                && (forall d :: d in devs && d.dir ==> d.registered && (d in drv.devices[..] || d in Displaced(drv)))
    {
      DriverFacts(drv);
      if refcnt <= 1 {
        assert |users| == |{drv}| + |users - {drv}| by { assert users == {drv} + (users - {drv}); }
        assert users == {drv} && miscUsers == {};
        forall m | m in miscs
          ensures !m.dir
        {
          MiscFacts(m);
        }
        forall d | d in devs && d.dir
          ensures d.registered && (d in drv.devices[..] || d in Displaced(drv))
        {
          DevFacts(d);
          DriverFacts(d.driver);
          assert d.driver != drv ==> OwnSlots(d.driver);
        }
      }
    }

    /** The teardown of a driver leaves other drivers, their tables and devices as they were. */
    method TeardownSparesOthers(drv: Driver)
      requires Valid() && drv in drivers && drv.devices != null
      modifies this`live, this`leaked, this`root, this`refcnt, this`users, this`skewed
      modifies drv, drv.devices, set d: Dev | d in drv.devices[..]
      ensures forall d :: d in devs && d.driver != drv ==> unchanged(d)
      ensures forall v :: v in drivers && v != drv ==> unchanged(v) && (v.devices != null ==> unchanged(v.devices))
    {
      DriverFacts(drv);
      assert forall d: Dev :: d in drv.devices[..] ==> d in devs && d.driver == drv;
      assert TablesApart();
      hide Valid, DriverOk, TableOk, DebugfsOk, TableRes, GivenBack;
      UnregisterDriver(drv);
    }

    /**
     After the teardown every debugfs directory is under the root exactly if the driver
     was not the last user, or no device outside its table had a directory.
     */
    method TeardownAndDirs(drv: Driver)
      requires Valid() && drv in drivers && drv.devices != null
      modifies this`live, this`leaked, this`root, this`refcnt, this`users, this`skewed
      modifies drv, drv.devices, set d: Dev | d in drv.devices[..]
      ensures Valid()
      ensures DirsUnderRoot() <==>
              || old(refcnt) > 1
              || ((forall d: Dev :: d in devs && old(d.dir) ==> d in old(drv.devices[..]))
                  && (forall m :: m in miscs ==> !m.dir))
    {
      ghost var tab := drv.devices[..];
      assert TableOk(drv) && DriverOk(drv);
      assert forall d: Dev :: d in tab ==> d in devs && d.driver == drv;
      UnregisterDriver(drv);
      assert forall d :: d in devs ==> DevOk(d);
    }

    /** The same when a driver without a table is unregistered: no directory goes with it. */
    method StrayAndDirs(drv: Driver)
      requires Valid() && drv in drivers && drv.devices == null && drv.devt == 0
      modifies this`live, this`leaked, this`root, this`refcnt, this`users, this`skewed, drv
      ensures Valid()
      ensures DirsUnderRoot() <==>
              old(refcnt) > 1 || ((forall d :: d in devs ==> !d.dir) && (forall m :: m in miscs ==> !m.dir))
    {
      hide Valid;
      UnregisterDriver(drv);
    }

    /**
     After a misc device is unregistered every directory is under the root exactly if it
     was not the last user, or no device and no other misc device has one.
     */
    method MiscAndDirs(misc: Misc)
      requires Valid() && misc in miscs && misc.registered
      modifies this`live, this`root, this`refcnt, this`miscUsers, misc
      ensures Valid()
      ensures DirsUnderRoot() <==>
              || old(refcnt) > 1
              || ((forall d :: d in devs ==> !d.dir) && (forall m :: m in miscs && m != misc ==> !m.dir))
    {
      hide Valid;
      UnregisterMisc(misc);
    }

    /** A misc registration, also one that fails after it used the root, leaves the directories under it. */
    method RegisterMiscAndDirs(misc: Misc, calls: MiscCalls) returns (ret: int)
      requires Valid() && misc in miscs && !misc.registered && DirsUnderRoot()
      modifies this`live, this`root, this`refcnt, this`miscUsers, this`skewed, misc
      ensures Valid() && ret == 0 - calls.node && DirsUnderRoot()
    {
      MiscFacts(misc);
      ret := RegisterMisc(misc, true, true, calls);
      MiscFacts(misc);
    }
  }

  /** What the devices of a table hold. */
  ghost function TableRes(tab: seq<Dev?>): set<Resource> {
    if tab == [] then {}
    else TableRes(tab[..|tab| - 1]) + Held(tab[|tab| - 1])
  }

  lemma TableResSnoc(tab: seq<Dev?>, i: nat)
    requires i < |tab|
    ensures TableRes(tab[..i + 1]) == TableRes(tab[..i]) + Held(tab[i])
  {
    assert tab[..i + 1][..i] == tab[..i];
  }
}
