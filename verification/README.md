# Proofs about the Linux driver framework

The repository is a set of thin layers over kernel subsystems, with a few places that
hold real state machines, loops and arithmetic. This project models those places in
Dafny and proves what they promise.

- `open_gate.dfy`, `char_device.dfy`: opening, releasing, operating on and unregistering a
  character device. The first is a state machine with one step per line of code, any number
  of descriptors and operations, and one unregister; the second holds the functions
  themselves as methods that other threads may interrupt between any two lines, each line
  tied to a step of the machine.
- `ram_disk.dfy`, `ram_interleaving.dfy`, `ram_concurrent_bios.dfy`: the RAM disk. One bio
  against a flat byte array; then bios that run at the same time, byte by byte under the
  spinlock, refined to steps of whole segments.
- `char_registry.dfy`, `char_runs.dfy`, `char_modules.dfy`, `debugfs_count.dfy`,
  `block_registry.dfy`: registration, unwinding and teardown with a ledger of kernel
  resources. What each kernel call answers is a parameter; a release requires that the
  resource is held; what nobody can release any more is recorded as leaked.
- `stream_cell.dfy`, `stream_devices.dfy`, `stream_lock.dfy`, `char_iter.dfy`: the echo and
  demo devices as one cell holding the last write; the same under any interleaving of
  single memory accesses; and vectored reads and writes through the bounce buffer.
- `ioctl_table.dfy`, `dev_numbers.dfy`, `usb_endpoints.dfy`, `uart_loopback.dfy`: the ioctl
  table, device numbers, USB endpoint discovery and the loopback UART.
- `kernel.dfy`, `bytes.dfy`: error numbers, and bytes laid end to end.

Some promises hold only under a condition. Each of these has a proof of exactly when it
holds, and most have an input on which it does not:

- The drain of unregister sees `opens == 0` for good only if no opener stands between its
  second test of `removing` and its increment (`OpenGate.DrainIsFinalIff`,
  `OpenGate.DrainCanEndTooEarly`).
- The debugfs count is that of the live users only if the root could always be created and
  only registered drivers are unregistered; otherwise the root can vanish under a live user
  (`DebugfsCount.CountExactIff`, `DebugfsCount.RootCanVanish`).
- The teardown loop reaches all devices of a driver only if each sits in its own slot, and
  a registration keeps it so only if its slot was free, which registration does not check
  (`CharRegistry.Core.TeardownIsComplete`, `CharRuns.RegisterSlot`,
  `CharRuns.DisplacedDeviceStays`; for disks `BlockRegistry.Core.TeardownIsComplete`,
  `BlockRegistry.RegisterSlot`, `BlockRegistry.DisplacedDiskStays`).
- A debugfs directory outlives the root when the last user of the root goes, be it a driver
  or a misc device, and a displaced device still has one. In a state whose count is right
  that is the only way (`CharRegistry.Core.DirsUnderRootIff`); the exact condition before
  each call that can give up the root is in `TeardownAndDirs`, `MiscAndDirs` and
  `StrayAndDirs`, and the failing inputs are `CharRuns.DisplacedDeviceStays` and
  `CharRuns.DisplacedUnderMisc`. It never happens in runs that only use free slots, only
  unregister registered drivers, and can create the root (`CharRuns.Run`).
- A driver's region is released only if its number is not 0, which fails for static majors
  that are multiples of 4096 (`CharRegistry.Core.RegionKeptIff`); the node of a device
  unregistered after its driver may stay behind (`CharRuns.DisplacedNode`).
- A vectored call of total length zero returns before the driver is reached, a flat one
  does not (`CharIter.WriteIterIsFlatIff`, `CharIter.EmptyWriteDiffers`).
- The device numbers of a driver are always distinct for up to 2^20 slots; for more, only
  if its major is a multiple of the power of two that covers the blocks of 2^20 they take
  (`DevNumbers.DistinctIff`, `DevNumbers.NumbersCollide`). A number unpacks to base minor
  plus index only if that has 20 bits (`DevNumbers.UnpacksIff`).
- `nv_uart_push_rx` returns `count` even if the receive buffer was full and characters were
  dropped (`UartLoopback.InsertAllAppends`).

Where the code and its documentation differ, the code is followed: block/README.md and the
comment at the head of nv_block_ram.c call the size parameter `size_mb`, the code
`ram_size_mb`; the header comment of nv_char.h puts `device_destroy` right after the
removing flag, the code first clears the table slot and the debugfs directory.

Conventions: memory is sequentially consistent; values the kernel decides (whether a call
fails, what other threads do, whether the module is alive) are parameters or arbitrary;
loff_t, size_t, sector_t and dev_t arithmetic is written out where it can wrap.

## Model

| member | source | states |
|---|---|---|
| OpenGate.FdCodeKeeps | char/driver/core/nv_char.c:54-125 | one line of open or release moves `opens` and the reference count exactly with the descriptor's place, and takes or puts at most its own reference |
| OpenGate.FdCodeStaysOut | char/driver/core/nv_char.c:58-70 | with `removing` set no line of open leads past the second test |
| OpenGate.StepKeepsInv | char/driver/core/nv_char.c:54-153 | every step of every thread keeps: `opens` and the references equal the numbers of descriptors at the places that own them, operations run only on open descriptors, a sleeping unregister has a wake-up coming |
| OpenGate.ReachInv | char/driver/core/nv_char.c:54-153 | that invariant holds in every state of every interleaving of one registration |
| OpenGate.RefsAccountedFor | char/driver/core/nv_char.c:54-125 | in every interleaving `opens` is never negative, the module references are `opens` plus openers before their increment plus releasers before their put, and whoever is gone has put what it took, once, a failed driver open included |
| OpenGate.NoOpensNoCallbacks | char/driver/core/nv_char.c:91-153 | in every reachable state with `opens == 0` no callback of the driver is running |
| OpenGate.RemovingStep | char/driver/core/nv_char.c:58-70 | once `removing` is set, one step lets nobody past the second test and no operation into the driver |
| OpenGate.RemovingClosesTheGate | char/driver/core/nv_char.c:58-153 | the same along every further schedule: the threads past the gate only get fewer |
| OpenGate.PendingNeverGrows | char/driver/core/nv_char.c:58-70 | once `removing` is set, `opens` plus the openers about to increment never increases |
| OpenGate.ZeroStays | char/driver/core/nv_char.c:747-763 | with `removing` set, nothing open and no opener about to increment, nothing is open and no callback runs in any later state |
| OpenGate.DrainIsFinalIff | char/driver/core/nv_char.c:747-763 | a drain that sees `opens == 0` has seen the last of it in every continuation if and only if no opener is between its second test and its increment |
| OpenGate.DrainCanEndTooEarly | char/driver/core/nv_char.c:58-70 | a concrete interleaving in which unregister finishes by its condition and an open callback then starts |
| OpenGate.DrainEndsQuiet | char/driver/core/nv_char.c:761-763 | a wait that ends by its condition ends with `removing` set, nothing open and no callback running at that moment |
| OpenGate.NoLostWakeup | char/driver/core/nv_char.c:74-82 | if unregister sleeps, not woken, with nothing open, some releaser is about to wake it |
| OpenGate.HoldingPartition | char/driver/core/nv_char.c:54-82 | who holds a module reference is either counted, before its increment, or after its decrement |
| OpenGate.UnregRuns | char/driver/core/nv_char.c:738-770 | with nothing open unregister finishes without sleeping |
| CharDevice.Device.RecheckAndCount | char/driver/core/nv_char.c:65-71 | the second test and the increment, under any interference: -ENODEV and the reference put back, or counted |
| CharDevice.Device.AcquireOpen | char/driver/core/nv_char.c:54-72 | returns 0, holding one reference and counted, only with an owner that is alive; -ENODEV with every reference put; unless `removing` gets set it returns 0 exactly if the owner is alive; if it was set, not even a reference is taken |
| CharDevice.Device.DropCount | char/driver/core/nv_char.c:74-79 | the decrement; exactly the one that took the count from 1 goes on to the wake-up |
| CharDevice.Device.ReleaseOpen | char/driver/core/nv_char.c:74-82 | uncounts the descriptor, wakes if it was the last, and puts its one reference |
| CharDevice.Device.RunOpenCallback | char/driver/core/nv_char.c:98-99 | the driver's open runs, and its result decides |
| CharDevice.Device.Open | char/driver/core/nv_char.c:84-108 | unless `removing` gets set: -ENODEV without a live owner, else the driver's open has run and its result is returned, 0 if it has none; a live descriptor with 0, no reference left with an error, whatever the other threads do in between |
| CharDevice.Device.Release | char/driver/core/nv_char.c:110-125 | the driver's release, if there is one, has run and its result is returned; the descriptor gone, one get and one put |
| CharDevice.Device.DataOp | char/driver/core/nv_char.c:127-153 | a guarded operation is inside the driver and returns its result, or returns -ENODEV with `removing` set, or the framework's answer because it is not implemented; never inside if `removing` was set at entry |
| CharDevice.Device.FinishOp | char/driver/core/nv_char.c:135-136 | the driver's callback was running, and returned |
| CharDevice.Device.QueueAndTest | char/driver/core/nv_char.c:761-763 | queue on the wait queue and test again; leaves the loop only with nothing open |
| CharDevice.Device.SleepAndTest | char/driver/core/nv_char.c:761-763 | sleeps and tests until nothing is open or the timer fires, which it does only after all its turns; the last test decides |
| CharDevice.Device.Drain | char/driver/core/nv_char.c:761-763 | the wait: it reports drained exactly if nothing was open at its last test, at once if nothing was open, and gives up only after all its turns |
| CharDevice.Device.DrainedForGood | char/driver/core/nv_char.c:761-763 | what a test that saw zero says about the state when unregister returns |
| CharDevice.Device.BeginRemoval | char/driver/core/nv_char.c:747-759 | the lines before the wait, each a step of the protocol |
| CharDevice.Device.EndRemoval | char/driver/core/nv_char.c:768-769 | the lines after the wait |
| CharDevice.Device.Unregister | char/driver/core/nv_char.c:738-770 | drained exactly if nothing was open when the wait ended; then no callback ran, and if no opener was before its increment none runs and nothing is open on return |
| RamDisk.RamPriv.constructor | block/driver/modules/nv_block_ram.c:78-90 | for every size parameter, zero and oversized ones included, the memory allocated is exactly `sectors * 512` zero bytes, with no wrap-around |
| RamDisk.TestBounds | block/driver/modules/nv_block_ram.c:50-56 | in 64-bit arithmetic the test passes exactly if the segment ends on the disk, and the offset is then exact |
| RamDisk.CopySegment | block/driver/modules/nv_block_ram.c:58-63 | one more segment stored or filled, all other bytes as they were |
| RamDisk.Transfer | block/driver/modules/nv_block_ram.c:49-66 | the loop copies exactly the longest prefix of segments that ends on the disk and is OK exactly if that is all of them |
| RamDisk.StoredIsSplice | block/driver/modules/nv_block_ram.c:58-63 | storing segments one after another is one flat copy of their concatenation |
| RamDisk.FilledIsSlice | block/driver/modules/nv_block_ram.c:58-63 | filling distinct buffers one after another is one flat read cut at their sizes |
| RamDisk.AllFitIff | block/driver/modules/nv_block_ram.c:55-56 | every segment fits exactly if first sector plus total sectors is at most the capacity |
| RamDisk.SubmitBio | block/driver/modules/nv_block_ram.c:39-67 | status OK exactly if the bio ends on the disk; the effect is the flat write (or read) of the longest prefix in range; without memory -EIO status and nothing changed |
| RamDisk.ReadBack | block/driver/modules/nv_block_ram.c:49-66 | a read of a range just written returns the bytes written |
| RamDisk.WriteThenRead | block/driver/modules/nv_block_ram.c:39-67 | write with one split, read with any other split: same status and, if OK, the same bytes |
| RamInterleaving.StoreTurnHidden | block/driver/modules/nv_block_ram.c:58-60 | a byte stored under the spinlock, or the end of the copy, does not show at the level of segments |
| RamInterleaving.FetchTurnHidden | block/driver/modules/nv_block_ram.c:58-62 | the same for a byte read |
| RamInterleaving.HolderStep | block/driver/modules/nv_block_ram.c:58-63 | a step of the lock holder keeps mutual exclusion and changes nothing at the level of segments |
| RamInterleaving.OtherStep | block/driver/modules/nv_block_ram.c:49-58 | a step of another bio is a whole segment (or its refusal) or nothing at that level |
| RamInterleaving.FineRefines | block/driver/modules/nv_block_ram.c:49-64 | every interleaving of single bytes is a run in which whole segments happen in the order they got the lock |
| RamConcurrentBios.SectorsAreWhole | block/driver/modules/nv_block_ram.c:49-64 | in every interleaving of segments each sector holds its initial bytes or those of the last store covering it |
| RamConcurrentBios.NoTornSectors | block/driver/modules/nv_block_ram.c:49-64 | the same for the byte-grained machine, for every sector not being copied at that moment |
| RamConcurrentBios.RunsAlone | block/driver/modules/nv_block_ram.c:49-64 | with disjoint ranges every bio is, at every moment, where it would be alone on the disk |
| RamConcurrentBios.DisjointBiosCommute | block/driver/modules/nv_block_ram.c:49-64 | two complete interleavings of disjoint bios end in the same disk, statuses and data read |
| RamConcurrentBios.OneByOneCompletes | block/driver/modules/nv_block_ram.c:49-64 | running the bios one after another completes all of them |
| RamConcurrentBios.DisjointBiosSerialize | block/driver/modules/nv_block_ram.c:49-64 | down to bytes: disjoint bios end as if run one after another |
| RamConcurrentBios.AloneIsSubmitBio | block/driver/modules/nv_block_ram.c:39-67 | a bio alone in the machine has the status and the flat write, or the flat read, of `RamDisk.SubmitBio` |
| RamConcurrentBios.CopyEnds | block/driver/modules/nv_block_ram.c:58-63 | whoever holds the spinlock comes to the end of its segment |
| RamConcurrentBios.AllCanEnd | block/driver/modules/nv_block_ram.c:49-67 | from every byte-grained state all bios can be run to their ends |
| CharRegistry.Core.constructor | char/driver/core/nv_char.c:32-33 | a registry of unregistered drivers and devices is valid, so every state the operations reach is |
| CharRegistry.Core.AcquireDriver | char/driver/core/nv_char.c:478-512 | table, region and class are all acquired or none is left, and the result is the error of the first call that fails |
| CharRegistry.Core.RegisterDriver | char/driver/core/nv_char.c:471-513 | success adds exactly the driver's three resources; failure leaves ledger, users and count as they were; the result is -EINVAL or the first failing call's error |
| CharRegistry.Core.AcquireDev | char/driver/core/nv_char.c:692-715 | cdev, node and attribute are all acquired or none is left; the result is the first error |
| CharRegistry.Core.RegisterAt | char/driver/core/nv_char.c:678-724 | register a checked device at its slot |
| CharRegistry.Core.RegisterDevice | char/driver/core/nv_char.c:664-725 | success adds the device's resources and writes it into the slot of its index, with its back-pointer; failure leaves ledger and table as they were; -EINVAL and -EBUSY as in the code |
| CharRegistry.Core.RemoveDevice | char/driver/core/nv_char.c:747-769 | the same for a registered device, with its driver's table or after it |
| CharRegistry.Core.GiveBackDev | char/driver/core/nv_char.c:753-769 | debugfs directory, attribute, node and cdev given back, on the ledger |
| CharRegistry.Core.ReleaseNode | char/driver/core/nv_char.c:755-759 | attribute and node released, if there is a node |
| CharRegistry.Core.UnregisterDevice | char/driver/core/nv_char.c:738-770 | a second call does nothing; the first releases cdev and attribute once, and the node too unless the driver is gone and device_destroy does not find it; the table, if there is one, loses the slot the index names |
| CharRegistry.Core.AcquireMisc | char/driver/core/nv_char.c:799-817 | a use of the root and the node, or neither |
| CharRegistry.Core.AddMisc | char/driver/core/nv_char.c:786-817 | the misc ladder keeps the registry valid |
| CharRegistry.Core.RegisterMisc | char/driver/core/nv_char.c:773-818 | misc registration succeeds or leaves the ledger, the debugfs users and their count as they were; only a root that cannot be created skews the count |
| CharRegistry.Core.UnregisterMisc | char/driver/core/nv_char.c:821-845 | releases the misc node, its directory and its use of the root, which stays exactly if there was another; a second call does nothing |
| CharRegistry.Core.EnterDriver | char/driver/core/nv_char.c:446-456 | a driver becomes a user of the debugfs root: root non-null exactly if the count is positive, count equal to the users unless skewed, and it is skewed exactly by a failed creation |
| CharRegistry.Core.EnterMisc | char/driver/core/nv_char.c:446-456 | the same for a misc device |
| CharRegistry.Core.LeaveDriver | char/driver/core/nv_char.c:459-468 | a driver stops using the root, which stays exactly if there was another use; unregistering one that is no user skews the count |
| CharRegistry.Core.LeaveMisc | char/driver/core/nv_char.c:459-468 | the root goes with its last user |
| CharRegistry.Core.CountIsLive | char/driver/core/nv_char.c:446-468 | unless skewed, the count is the number of live drivers plus live misc devices |
| CharRegistry.Core.HousedDirs | char/driver/core/nv_char.c:419-468 | if the count is not skewed and every device is in its own slot, no debugfs directory outlives the root |
| CharRegistry.Core.TeardownAndDirs | char/driver/core/nv_char.c:516-533 | after a teardown every directory is under the root if and only if the driver was not the last user or no device outside its table, and no misc device, had one |
| CharRegistry.Core.TeardownAndDisplaced | char/driver/core/nv_char.c:516-533 | with the count right and the other drivers' devices in their slots: if and only if the root is still there or no displaced device of the driver has a directory |
| CharRegistry.Core.StrayAndDirs | char/driver/core/nv_char.c:516-533 | the same when a driver that is not registered is unregistered: if and only if there was another use of the root or no directory at all |
| CharRegistry.Core.MiscAndDirs | char/driver/core/nv_char.c:821-845 | after a misc device is unregistered every directory is under the root if and only if it was not the last user or no device and no other misc device has one |
| CharRegistry.Core.RegisterMiscAndDirs | char/driver/core/nv_char.c:799-817 | a misc registration leaves the directories under the root, also when it fails and gives its use of the root back |
| CharRegistry.Core.DirsUnderRootIff | char/driver/core/nv_char.c:419-468 | in every state whose count is not skewed, a directory outlives the root if and only if the root is gone and a displaced device has one |
| CharRegistry.Core.DisplacedIff | char/driver/core/nv_char.c:523-527 | the displaced devices of a driver are those its teardown loop does not find |
| CharRegistry.Core.UnregisterSlot | char/driver/core/nv_char.c:523-527 | one turn of the teardown loop clears the slot it reads, through the device's own pointers |
| CharRegistry.Core.UnregisterAll | char/driver/core/nv_char.c:523-527 | the loop empties the table, unregisters every device in it and releases exactly their resources |
| CharRegistry.Core.ReleaseClassAndRegion | char/driver/core/nv_char.c:535-547 | class released if there is one, region if its number is not 0, and both forgotten |
| CharRegistry.Core.RegionKeptIff | char/driver/core/nv_char.c:535-547 | a registered driver's region is not released if and only if its static major is a multiple of 4096 |
| CharRegistry.Core.GiveBack | char/driver/core/nv_char.c:528-549 | table, debugfs use, class and region given back, on the ledger |
| CharRegistry.Core.ReleaseDriver | char/driver/core/nv_char.c:528-549 | the same, keeping the registry valid |
| CharRegistry.Core.UnregisterDriver | char/driver/core/nv_char.c:516-550 | all devices of the table unregistered; exactly their resources and the driver's are released; a driver without a table releases nothing but takes a debugfs use away |
| CharRegistry.Core.TeardownIsComplete | char/driver/core/nv_char.c:516-550 | the teardown leaves no device of the driver registered if and only if each of them sat in the slot of its index |
| CharRegistry.Core.TeardownSparesOthers | char/driver/core/nv_char.c:516-550 | other drivers, their tables and devices are untouched |
| CharRuns.RegisterSlot | char/driver/core/nv_char.c:720-721 | a registration keeps the driver's devices in their own slots if and only if the slot it takes was free |
| CharRuns.DriverUp | char/driver/core/nv_char.c:471-513 | a driver comes up exactly if its arguments and all kernel calls are good |
| CharRuns.DriverDown | char/driver/core/nv_char.c:516-550 | a driver whose devices are in their slots takes all of them down with it |
| CharRuns.DevUp | char/driver/core/nv_char.c:664-725 | a device comes up in a free slot exactly if all kernel calls are good |
| CharRuns.Happen | char/driver/core/nv_char.c:471-845 | each registration into a free slot happens exactly if its kernel calls are good, each unregistration happens, every device stays in its own slot, nothing leaks, and the count is skewed only by a root that cannot be created |
| CharRuns.Run | char/driver/core/nv_char.c:419-468 | in every run whose registrations take free slots and in which the root can be created, no debugfs directory outlives the root and the count is never skewed |
| CharRuns.Displace | char/driver/core/nv_char.c:720-721 | from nothing and with no call failing, two devices at one index: both registered, the second in the slot |
| CharRuns.DisplacedDeviceStays | char/driver/core/nv_char.c:523-533 | the teardown then leaves the first registered, and its debugfs directory without the root |
| CharRuns.DisplacedUnderMisc | char/driver/core/nv_char.c:834-843 | with a misc device registered the root survives that teardown, and goes when the misc device does, leaving the directory without it |
| CharRuns.DisplacedNode | char/driver/core/nv_char.c:750-759 | unregistered after that, it gives back cdev and attribute, and its node stays behind unless device_destroy finds it |
| CharModules.RegisterOrUnwind | char/driver/modules/nv_char_echo.c:110-121 | register the device or unregister the driver again |
| CharModules.ModuleInit | char/driver/modules/nv_char_echo.c:92-125 | buffer, driver and device are all held or the ledger is as before, and the result is the first failing call's error |
| CharModules.ModuleExit | char/driver/modules/nv_char_demo.c:212-218 | exit releases each resource exactly once although the driver's loop revisits the device's slot |
| CharModules.InitThenExit | char/driver/modules/nv_char_demo.c:179-218 | init followed by exit restores the ledger, whichever call failed |
| CharModules.Unload | char/driver/modules/nv_char_demo.c:212-216 | device, then driver, each resource once |
| DebugfsCount.RootIffCounted | char/driver/core/nv_char.c:446-468 | in every run, failed creations and stray unregistrations included, the root is non-null exactly if the count is positive, and the count is at most the live users |
| DebugfsCount.CountExactIff | char/driver/core/nv_char.c:446-468 | the count equals the live users throughout a run if and only if creation never fails in it and only registered drivers are unregistered |
| DebugfsCount.RootCanVanish | char/driver/core/nv_char.c:446-468 | a run with one failed creation in which the root goes while a user is still registered |
| BlockRegistry.Core.constructor | block/driver/core/nv_block.c:75-176 | a registry of unregistered drivers and disks is valid, so every state the operations reach is |
| BlockRegistry.Core.RegisterDriver | block/driver/core/nv_block.c:75-85 | adds the table, or leaves the ledger as it was; -EINVAL or -ENOMEM as in the code |
| BlockRegistry.Core.AcquireDisk | block/driver/core/nv_block.c:138-152 | disk allocated and added, or neither; after a failed allocation the pointer is an error pointer, after a failed add it is NULL |
| BlockRegistry.Core.AddDevice | block/driver/core/nv_block.c:122-156 | the fields, the default block size and the slot of a new disk |
| BlockRegistry.Core.RegisterDevice | block/driver/core/nv_block.c:106-157 | success adds the disk's resources and its slot; failure leaves ledger and table; -EINVAL and -EBUSY as in the code |
| BlockRegistry.Core.RemoveDevice | block/driver/core/nv_block.c:165-174 | disk deleted and put once, with its driver's table or after it; slot cleared through the device's pointers if there is a table |
| BlockRegistry.Core.UnregisterDevice | block/driver/core/nv_block.c:160-175 | a second call does nothing |
| BlockRegistry.Core.UnregisterSlot | block/driver/core/nv_block.c:95-99 | one turn of the teardown loop |
| BlockRegistry.Core.UnregisterAll | block/driver/core/nv_block.c:95-99 | the loop unregisters every disk in the table and releases exactly theirs |
| BlockRegistry.Core.FreeTable | block/driver/core/nv_block.c:100-101 | the table released once |
| BlockRegistry.Core.UnregisterDriver | block/driver/core/nv_block.c:88-103 | the table's disks and the table released once; a second call does nothing |
| BlockRegistry.Core.TeardownIsComplete | block/driver/core/nv_block.c:88-103 | the teardown leaves no disk of the driver registered if and only if each of them sat in the slot of its index |
| BlockRegistry.RegisterSlot | block/driver/core/nv_block.c:154-155 | a registration keeps the driver's disks in their own slots if and only if the slot it takes was free |
| BlockRegistry.Displace | block/driver/core/nv_block.c:154-155 | from nothing and with no call failing, two disks at one index: both registered, the second in the slot |
| BlockRegistry.DisplacedDiskStays | block/driver/core/nv_block.c:95-102 | the teardown then leaves the first registered, with its resources |
| BlockRegistry.DisplacedDiskGoes | block/driver/core/nv_block.c:165-174 | unregistered after its driver is gone, it releases each resource once |
| BlockRegistry.RegisterOrUnwind | block/driver/modules/nv_block_ram.c:99-110 | register the disk or unregister the driver again |
| BlockRegistry.RamInit | block/driver/modules/nv_block_ram.c:73-114 | memory, table and disk are all held or the ledger is as before, and the result is the first failing call's error; on success the capacity announced times the block size is the size of the memory |
| BlockRegistry.RamExit | block/driver/modules/nv_block_ram.c:116-122 | each resource released exactly once although the loop revisits the slot |
| BlockRegistry.InitThenExit | block/driver/modules/nv_block_ram.c:73-122 | init followed by exit restores the ledger, whichever call failed |
| StreamCell.ReadCell | char/driver/modules/nv_char_echo.c:35-55 | a read returns a piece of the message from the position, all that was asked for or all there is, and moves the position by it; outside the message nothing |
| StreamCell.CallsMean | char/driver/modules/nv_char_demo.c:40-154 | what each call returns, where it leaves the position and what it leaves in the cell: a write its first bytes up to the capacity, with the position at their end for echo and at 0 for demo |
| StreamCell.WriteThenRead | char/driver/modules/nv_char_demo.c:85-94 | the bytes written are read back from the start; for demo by the next read of the same descriptor, for echo that read is at the end |
| StreamCell.ChunksAreThePrefix | char/driver/modules/nv_char_echo.c:38-54 | reads in chunks of any sizes put together are the message up to their total size, and the position is the sum of the returns |
| StreamDevices.EchoRead | char/driver/modules/nv_char_echo.c:28-58 | delivers exactly the cell's slice, moves the position by it, touches nothing else in the user buffer; -EINVAL for no state or a negative position |
| StreamDevices.EchoWrite | char/driver/modules/nv_char_echo.c:60-85 | the cell becomes the first `count` or 4096 bytes of the user's buffer, whichever is less; returns that number and leaves the position there |
| StreamDevices.DemoRead | char/driver/modules/nv_char_demo.c:40-71 | delivers exactly the cell's slice; a negative position compares as a huge one and reads nothing |
| StreamDevices.DemoWrite | char/driver/modules/nv_char_demo.c:73-99 | the cell becomes the first `count` or 256 bytes of the user's buffer, whichever is less; returns that number and leaves the position at 0 |
| StreamDevices.DemoPoll | char/driver/modules/nv_char_demo.c:101-119 | readable exactly if a read of any positive size at offset 0 would return bytes; always writable |
| StreamDevices.DemoGetLen | char/driver/modules/nv_char_demo.c:121-138 | reports the length of the cell |
| StreamDevices.DemoClear | char/driver/modules/nv_char_demo.c:140-154 | empties the cell |
| StreamDevices.EchoReadToEnd | char/driver/modules/nv_char_echo.c:28-58 | a read-until-zero loop with any positive chunk sizes ends and returns exactly the message |
| StreamDevices.DemoReadToEnd | char/driver/modules/nv_char_demo.c:40-71 | the same for the demo device |
| StreamLock.ReadTurnHidden | char/driver/modules/nv_char_demo.c:49-67 | a step of a read under the mutex does not change what the read will have returned |
| StreamLock.WriteTurnHidden | char/driver/modules/nv_char_demo.c:85-94 | a step of a write under the mutex does not change what the cell will be |
| StreamLock.HolderStep | char/driver/modules/nv_char_demo.c:40-154 | a step of the mutex holder keeps mutual exclusion and does not show at the level of calls |
| StreamLock.OtherStep | char/driver/modules/nv_char_demo.c:40-154 | a step of another descriptor is a whole call or nothing at that level |
| StreamLock.FineRefines | char/driver/modules/nv_char_demo.c:40-154 | every interleaving of single accesses by many descriptors is a run of whole reads, writes, clears, polls and length queries on the cell, with the same replies, positions and contents |
| StreamLock.HoldCompletes | char/driver/modules/nv_char_demo.c:40-154 | a call that got the mutex ends after finitely many steps with the reply and the contents of the whole call on the cell |
| StreamLock.RunUpToDate | char/driver/modules/nv_char_echo.c:28-85 | after every run of calls the cell holds what the last write or clear left, and each descriptor stands where its replies say |
| StreamLock.RunAnswers | char/driver/modules/nv_char_echo.c:28-85 | in every run of whole calls each reply is that of the operation on what the last write or clear before it left, from where the replies before it left the descriptor |
| StreamLock.ReadsSeeTheLastWrite | char/driver/modules/nv_char_echo.c:28-85 | the same in every interleaving of single accesses, with the calls in the order they got the mutex: a read returns no mixture, nothing stale and nothing early |
| CharIter.Iter.CopyTo | char/driver/core/nv_char.c:181-184 | copying into segments of any sizes is one flat copy into their concatenation from where the iterator stands |
| CharIter.Iter.CopyFrom | char/driver/core/nv_char.c:215-218 | copying from segments collects exactly the bytes left, in order |
| CharIter.Device.Read | char/driver/core/nv_char.c:127-139 | the flat read: -ENODEV when removing, -ENOSYS without a callback, and else the driver's result with its bytes at the front of the user's buffer |
| CharIter.Device.Write | char/driver/core/nv_char.c:141-153 | the flat write: -ENODEV when removing, -ENOSYS without a callback, and else the driver's answer to the user's bytes |
| CharIter.WriteThenRead | char/driver/core/nv_char.c:127-153 | through the flat calls the message written, clipped, is what a read from the start returns |
| CharIter.Device.BounceRead | char/driver/core/nv_char.c:180-184 | the driver's bytes reach the segments in order, and nothing else in them changes |
| CharIter.Device.ReadIter | char/driver/core/nv_char.c:155-188 | for every driver: a vectored read is the flat read of the total length, spread over the segments in order; 0 for an empty total, -ENOMEM without a bounce buffer, -ENODEV and -ENOSYS as for the flat one |
| CharIter.Device.WriteIter | char/driver/core/nv_char.c:190-223 | a vectored write is the flat write of the concatenation, same result, state and position; 0, -ENOMEM, -ENODEV and -ENOSYS as for the read |
| CharIter.ReadIterIsFlatIff | char/driver/core/nv_char.c:172-188 | with a bounce buffer the vectored read equals the flat one if and only if the total is positive, the driver is not reached, or the driver takes a read of nothing as nothing |
| CharIter.WriteIterIsFlatIff | char/driver/core/nv_char.c:207-222 | the same for writes |
| CharIter.EmptyWriteOnCell | char/driver/core/nv_char.c:207-209 | for echo and demo an empty vectored write equals an empty write if and only if the cell is empty and the position 0 |
| CharIter.EmptyWriteDiffers | char/driver/core/nv_char.c:207-209 | an empty write to the echo device empties a one-byte message, an empty vectored write leaves it |
| CharIter.WritevThenReadv | char/driver/core/nv_char.c:155-223 | write with any split, read with any split: the message, clipped, comes back |
| IoctlTable.Lookup | char/driver/core/nv_char.c:344-346 | the entry found is the first with the command, none exactly if no entry has it |
| IoctlTable.Device.Dispatch | char/driver/core/nv_char.c:334-355 | the first match decides: -EPERM and nothing else if its capability is refused, its handler's state and result if it has one, -ENOTTY otherwise and without a match |
| IoctlTable.FirstMatchDecides | char/driver/core/nv_char.c:344-354 | the same of the partial function the table stands for |
| IoctlTable.HandlerOnlyAfterTest | char/driver/core/nv_char.c:344-351 | at most one handler runs, last, for this command, only after its capability test passed, and its answer is the result |
| IoctlTable.NothingHappensIff | char/driver/core/nv_char.c:341-354 | no test and no handler happens exactly if there is no match or the match has neither, and the result is then -ENOTTY |
| IoctlTable.OrderDoesNotMatter | char/driver/core/nv_char.c:344-354 | with distinct commands any permutation of the table dispatches alike |
| IoctlTable.DemoIoctl | char/driver/modules/nv_char_demo.c:121-167 | the demo table: one command reports the length, one empties the cell, both are -EINVAL without private state; all others are -ENOTTY and change nothing |
| DevNumbers.NumberIsOffsetIff | char/driver/core/nv_char.c:685 | the number is the region's start plus the index if and only if or-ing what exceeds 20 bits into the major adds it; it never lies beyond that |
| DevNumbers.MajorKeptIff | char/driver/include/nv_char.h:161-164 | the driver's major is kept if and only if that excess has only bits of the major |
| DevNumbers.UnpacksIff | char/driver/include/nv_char.h:161-169 | a number unpacks to base minor plus index if and only if that minor has 20 bits; then it keeps the major |
| DevNumbers.RegionHolds | char/driver/core/nv_char.c:482-491 | if base minor plus count is at most 2^20, the numbers are distinct, keep the major and stay in the reserved region |
| DevNumbers.FewAreDistinct | char/driver/core/nv_char.c:685 | up to 2^20 slots get distinct numbers whatever the base minor |
| DevNumbers.FromMinorZero | char/driver/core/nv_char.c:482-491 | with base minor 0, as both reservations ask for, every number lies between the region's start and start plus index |
| DevNumbers.DistinctIff | char/driver/core/nv_char.c:482-491 | with base minor 0 the numbers of `count` slots are distinct if and only if the major is a multiple of the least power of two not below the blocks of 2^20 numbers they take |
| DevNumbers.NumbersCollide | char/driver/core/nv_char.c:483-491 | slot 2^20 of static major 1 gets the number of slot 0 |
| DevNumbers.MkdevZeroIff | char/driver/core/nv_char.c:490-491 | the region number of a static major is 0 if and only if its lowest 12 bits are |
| UsbEndpoints.FirstMatchUnique | bus/usb/driver/core/nv_usb.c:68-88 | a search for the first match has one result, so the slots are determined by the list |
| UsbEndpoints.FirstMatchSnoc | bus/usb/driver/core/nv_usb.c:68-88 | one more endpoint changes a search only if it had found nothing and the endpoint matches |
| UsbEndpoints.UsbDev.Consider | bus/usb/driver/core/nv_usb.c:69-87 | the loop body keeps all three searches right for the list seen so far |
| UsbEndpoints.FieldsMean | bus/usb/driver/core/nv_usb.c:70-83 | bulk is type 2 and interrupt type 3 in the low two bits of bmAttributes, IN is bit 7 of bEndpointAddress, the packet size is the low 11 bits of wMaxPacketSize |
| UsbEndpoints.SlotMeans | bus/usb/driver/core/nv_usb.c:68-88 | a slot is null if no endpoint qualifies by its fields, and otherwise describes the first that does |
| UsbEndpoints.FindEndpoints | bus/usb/driver/core/nv_usb.c:57-91 | one pass gives the three first matches, by the fields of the descriptors, with address and packet size of the same descriptor, whatever the slots held; -EINVAL changes nothing |
| UartLoopback.Port.StartTx | bus/uart/driver/modules/nv_uart_demo.c:27-43 | the drain loop terminates having taken a prefix of the FIFO, all of it or up to a test that saw a stop, and delivered of it, in order, what the receive buffer had room for; without a port state nothing moves |
| UartLoopback.DrainMeans | bus/uart/driver/modules/nv_uart_demo.c:38-39 | the same of one drain |
| UartLoopback.DrainTakes | bus/uart/driver/modules/nv_uart_demo.c:38-39 | a drain takes characters in order and ends with the FIFO empty or at a test that saw transmission stopped |
| UartLoopback.PushRx | bus/uart/driver/core/nv_uart.c:21-47 | inserts exactly `count` characters in order and returns `count`; -EINVAL and -ENODEV change nothing |
| UartLoopback.InsertAllKeeps | bus/uart/driver/core/nv_uart.c:38-43 | what was delivered stays, and exactly the characters with room are added, in order |
| UartLoopback.InsertAllAppends | bus/uart/driver/core/nv_uart.c:38-43 | exactly the bytes are appended if and only if the receive buffer has room for each of them; others are counted as lost |
| UartLoopback.RunConserves | bus/uart/driver/modules/nv_uart_demo.c:27-43 | over any run of writes, stops, restarts and starts, handed over plus waiting is everything written, in order, if and only if nothing was lost |

## Left out

- Memory ordering: the barriers and READ_ONCE/WRITE_ONCE are taken to give sequential consistency; the wait queue is "woken or timed out".
- Re-registering a device that still has open descriptors after the wait timed out: one registration is one run of the protocol, and `opens` is reset by the next.
- CharRegistry.Core.UnregisterDriver: excludes a driver whose failed registration left a region number behind, which would be released again.
- CharRegistry.Core.RegisterDriver: excludes a driver that is registered, and one whose region has leaked.
- CharRegistry.Core.RegisterDevice: excludes a device whose node has leaked, and a driver without a table.
- CharRuns.DisplacedNode: whether device_destroy finds a node without a class is the kernel's; it is a parameter.
- CharRegistry.Core.UnregisterDevice: excludes a device whose driver's class is the error pointer of a later failed registration; the wait for open descriptors is not repeated here; it is CharDevice.Device.Unregister.
- OpenGate.DrainIsFinalIff: what the kernel does after cdev_del with an opener that is still inside chrdev_open is not modelled.
- CharDevice.Device.DataOp: stands for read, write, ioctl, poll, llseek, mmap and fsync, which differ only in what they return when the driver does not implement them; poll's -ENODEV is an event mask.
- The VFS guarantees that release runs once, after the last operation on the file; this is part of the protocol's enabling conditions.
- The devm registration path, whose class and late failure branches have another ownership.
- User copies that fault or stop half way: copies are total. In the bounce path the driver's user-copy helpers are taken as plain copies although the buffer is kernel memory.
- CharIter.Device.ReadIter: an iov_iter is a list of segment contents with a position; segments that share memory are not described.
- CharIter.Device.Read: a driver that returns more than it was asked for is excluded.
- RamDisk.SubmitBio: the block layer's guarantees (segments of whole blocks, an end that is a sector number, buffers outside the disk's memory) are preconditions; the wrapper nv_block_submit_bio that ends the bio is not modelled.
- RamDisk.FilledIsSlice: buffers that occur twice in one read are covered by SubmitBio (the last use wins) but not by the flat view.
- StreamLock.FineRefines: each descriptor runs one operation at a time, with positions that are not negative; negative positions are covered by StreamDevices.
- UartLoopback.PushRx: the port lock and the push of the flip buffer to the line discipline are not modelled.
- UartLoopback.RunConserves: user writes are the bytes the FIFO accepted; nv_uart_push_rx is not part of the run.
- UsbEndpoints.FindEndpoints: descriptors are objects that do not change; the setting's list has as many endpoints as its descriptor says.
- Waking the readers that poll, after a write or a clear: poll is its condition only.
- Tracepoints, log output, debugfs file contents, sysfs attributes, device node modes.
- The net, i2c, spi, sdio, pci, can, pwm, adc and iio layers, and the rest of the USB and UART layers: null checks, forwarding and registries like the block one.
- nv_char_misc_echo.c and nv_char_plat.c: the same buffer logic as the echo device.
