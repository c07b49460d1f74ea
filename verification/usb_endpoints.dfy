/**
 Endpoint discovery: one pass that fills three slots, against three searches for the first
 match. Descriptor fields are those of section 9.6.6 of the USB 2.0 specification.
 */
module UsbEndpoints {
  import opened Kernel

  const XFER_BULK: bv8 := 2
  const XFER_INT: bv8 := 3
  const XFERTYPE_MASK: bv8 := 3
  const DIR_IN: bv8 := 0x80
  const MAXP_MASK: bv16 := 0x7FF

  class Endpoint {
    const address: bv8       // bEndpointAddress
    const attributes: bv8    // bmAttributes
    const maxPacket: bv16    // wMaxPacketSize

    constructor (address: bv8, attributes: bv8, maxPacket: bv16)
      ensures this.address == address && this.attributes == attributes && this.maxPacket == maxPacket
    {
      this.address, this.attributes, this.maxPacket := address, attributes, maxPacket;
    }
  }

  function Type(ep: Endpoint): bv8 {
    ep.attributes & XFERTYPE_MASK
  }

  function IsIn(ep: Endpoint): bool {
    ep.address & DIR_IN == DIR_IN
  }

  function MaxPacket(ep: Endpoint): bv16 {
    ep.maxPacket & MAXP_MASK
  }

  // ----- The three searches -----

  datatype Want = BulkIn | BulkOut | IntIn

  ghost predicate Is(want: Want, ep: Endpoint) {
    match want
    case BulkIn => Type(ep) == XFER_BULK && IsIn(ep)
    case BulkOut => Type(ep) == XFER_BULK && !IsIn(ep)
    case IntIn => Type(ep) == XFER_INT && IsIn(ep)
  }

  /** What a slot of `eps` holds: a descriptor, its address and its packet size. */
  datatype Slot = Slot(ep: Endpoint?, address: bv8, maxPacket: bv16)

  const EMPTY := Slot(null, 0, 0)

  ghost function Filled(ep: Endpoint): Slot {
    Slot(ep, ep.address, MaxPacket(ep))
  }

  /** `i` is the index of the first match. */
  ghost predicate First(want: Want, list: seq<Endpoint>, i: nat) {
    i < |list| && Is(want, list[i]) && forall j :: 0 <= j < i ==> !Is(want, list[j])
  }

  /** `slot` is the result of a search of `list` for the first `want`. */
  ghost predicate FirstMatch(want: Want, list: seq<Endpoint>, slot: Slot) {
    if forall i :: 0 <= i < |list| ==> !Is(want, list[i]) then slot == EMPTY
    else exists i: nat :: First(want, list, i) && slot == Filled(list[i])
  }

  /** A search has one result. */
  lemma FirstMatchUnique(want: Want, list: seq<Endpoint>, a: Slot, b: Slot)
    requires FirstMatch(want, list, a) && FirstMatch(want, list, b)
    ensures a == b
  {
    if !(forall i :: 0 <= i < |list| ==> !Is(want, list[i])) {
      var i: nat :| First(want, list, i) && a == Filled(list[i]);
      var k: nat :| First(want, list, k) && b == Filled(list[k]);
      assert i == k;
    }
  }

  /** One more endpoint changes the result of a search only if there was none and it matches. */
  lemma FirstMatchSnoc(want: Want, list: seq<Endpoint>, ep: Endpoint, slot: Slot)
    requires FirstMatch(want, list, slot)
    ensures FirstMatch(want, list + [ep], if slot.ep == null && Is(want, ep) then Filled(ep) else slot)
    ensures slot.ep == null <==> forall i :: 0 <= i < |list| ==> !Is(want, list[i])
  {
    var more := list + [ep];
    if forall i :: 0 <= i < |list| ==> !Is(want, list[i]) {
      assert more[|list|] == ep;
      assert forall i :: 0 <= i < |list| ==> more[i] == list[i];
      assert Is(want, ep) ==> First(want, more, |list|);
    } else {
      var i: nat :| First(want, list, i) && slot == Filled(list[i]);
      assert more[i] == list[i] && forall j :: 0 <= j < i ==> more[j] == list[j];
      assert First(want, more, i);
    }
  }

  // ----- The same by the fields of the descriptors -----

  /** Bits 1..0 of bmAttributes are the transfer type, bit 7 of bEndpointAddress is the direction. */
  ghost predicate IsByFields(want: Want, ep: Endpoint) {
    match want
    case BulkIn => ep.attributes % 4 == 2 && ep.address >= 0x80
    case BulkOut => ep.attributes % 4 == 2 && ep.address < 0x80
    case IntIn => ep.attributes % 4 == 3 && ep.address >= 0x80
  }

  lemma FieldsMean(want: Want, ep: Endpoint)
    ensures Is(want, ep) <==> IsByFields(want, ep)
    ensures MaxPacket(ep) == ep.maxPacket % 0x800
  {}

  /** The slot is null if no endpoint qualifies, and otherwise describes the first that does. */
  ghost predicate SlotByFields(want: Want, list: seq<Endpoint>, slot: Slot) {
    if slot.ep == null then
      slot.address == 0 && slot.maxPacket == 0 && forall i :: 0 <= i < |list| ==> !IsByFields(want, list[i])
    else
      && slot.address == slot.ep.address && slot.maxPacket == slot.ep.maxPacket % 0x800
      && exists i :: 0 <= i < |list| && list[i] == slot.ep && IsByFields(want, list[i])
                     && forall j :: 0 <= j < i ==> !IsByFields(want, list[j])
  }

  lemma SlotMeans(want: Want, list: seq<Endpoint>, slot: Slot)
    requires FirstMatch(want, list, slot)
    ensures SlotByFields(want, list, slot)
  {
    forall i | 0 <= i < |list|
      ensures Is(want, list[i]) <==> IsByFields(want, list[i])
    {
      FieldsMean(want, list[i]);
    }
    if slot.ep != null {
      FieldsMean(want, slot.ep);
    }
    hide Is, IsByFields, MaxPacket;
    if slot.ep != null {
      var i: nat :| First(want, list, i) && slot == Filled(list[i]);
      assert list[i] == slot.ep && IsByFields(want, list[i]);
    }
  }

  lemma SearchOfNothing(want: Want, list: seq<Endpoint>)
    requires list == []
    ensures FirstMatch(want, list, EMPTY)
  {}

  // ----- The one pass -----

  class Interface {
    const endpoints: seq<Endpoint>    // of the current altsetting

    constructor (endpoints: seq<Endpoint>)
      ensures this.endpoints == endpoints
    {
      this.endpoints := endpoints;
    }
  }

  class UsbDev {
    var intf: Interface?
    var bulkIn: Slot
    var bulkOut: Slot
    var intIn: Slot

    constructor (intf: Interface?)
      ensures this.intf == intf && bulkIn == bulkOut == intIn == EMPTY
    {
      this.intf, bulkIn, bulkOut, intIn := intf, EMPTY, EMPTY, EMPTY;
    }

    /** The body of the loop. */
    method Consider(ep: Endpoint, ghost list: seq<Endpoint>)
      requires FirstMatch(BulkIn, list, bulkIn) && FirstMatch(BulkOut, list, bulkOut) && FirstMatch(IntIn, list, intIn)
      modifies this`bulkIn, this`bulkOut, this`intIn
      ensures FirstMatch(BulkIn, list + [ep], bulkIn)
      ensures FirstMatch(BulkOut, list + [ep], bulkOut)
      ensures FirstMatch(IntIn, list + [ep], intIn)
    {
      FirstMatchSnoc(BulkIn, list, ep, bulkIn);
      FirstMatchSnoc(BulkOut, list, ep, bulkOut);
      FirstMatchSnoc(IntIn, list, ep, intIn);
      hide FirstMatch;
      var etype := Type(ep);
      if etype == XFER_BULK {
        if IsIn(ep) && bulkIn.ep == null {
          bulkIn := Slot(ep, ep.address, MaxPacket(ep));
        } else if !IsIn(ep) && bulkOut.ep == null {
          bulkOut := Slot(ep, ep.address, MaxPacket(ep));
        }
      } else if etype == XFER_INT && IsIn(ep) && intIn.ep == null {
        intIn := Slot(ep, ep.address, MaxPacket(ep));
      }
    }
  }

  /** nv_usb_find_endpoints: whatever the slots held before, they hold the three first matches. */
  method FindEndpoints(dev: UsbDev?) returns (ret: int)
    modifies if dev == null then {} else {dev}
    ensures ret == if dev == null || dev.intf == null then -EINVAL else 0
    ensures dev != null ==> dev.intf == old(dev.intf)
    ensures dev != null && dev.intf == null ==>
              (dev.bulkIn, dev.bulkOut, dev.intIn) == old((dev.bulkIn, dev.bulkOut, dev.intIn))
    ensures dev != null && dev.intf != null ==>
              && FirstMatch(BulkIn, dev.intf.endpoints, dev.bulkIn)
              && FirstMatch(BulkOut, dev.intf.endpoints, dev.bulkOut)
              && FirstMatch(IntIn, dev.intf.endpoints, dev.intIn)
    ensures dev != null && dev.intf != null ==>
              && SlotByFields(BulkIn, dev.intf.endpoints, dev.bulkIn)
              && SlotByFields(BulkOut, dev.intf.endpoints, dev.bulkOut)
              && SlotByFields(IntIn, dev.intf.endpoints, dev.intIn)
  {
    if dev == null || dev.intf == null {
      return -EINVAL;
    }
    dev.bulkIn, dev.bulkOut, dev.intIn := EMPTY, EMPTY, EMPTY;
    var list := dev.intf.endpoints;
    assert list[..|list|] == list;
    SearchOfNothing(BulkIn, list[..0]);
    SearchOfNothing(BulkOut, list[..0]);
    SearchOfNothing(IntIn, list[..0]);
    hide FirstMatch;
    for i := 0 to |list|
      invariant dev.intf == old(dev.intf)
      invariant FirstMatch(BulkIn, list[..i], dev.bulkIn)
      invariant FirstMatch(BulkOut, list[..i], dev.bulkOut)
      invariant FirstMatch(IntIn, list[..i], dev.intIn)
    {
      dev.Consider(list[i], list[..i]);
      assert list[..i + 1] == list[..i] + [list[i]];
    }
    SlotMeans(BulkIn, list, dev.bulkIn);
    SlotMeans(BulkOut, list, dev.bulkOut);
    SlotMeans(IntIn, list, dev.intIn);
    ret := 0;
  }
}
