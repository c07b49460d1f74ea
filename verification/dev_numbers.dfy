/** Device numbers: how a driver's region is divided among its devices. */
module DevNumbers {
  const MINORS := 0x10_0000             // a minor has 20 bits
  const MAJORS := 0x1000                // a major has 12
  const TWO_TO_THE_32 := 0x1_0000_0000

  type u32 = n: int | 0 <= n < TWO_TO_THE_32

  function Pow2(n: nat): (p: nat)
    ensures p > 0
  {
    if n == 0 then 1 else 2 * Pow2(n - 1)
  }

  /** Bitwise or of two numbers of `bits` bits. */
  function Or(a: nat, b: nat, bits: nat): (r: nat)
    requires a < Pow2(bits) && b < Pow2(bits)
    ensures r < Pow2(bits) && a <= r && b <= r <= a + b
    decreases bits
  {
    if bits == 0 then 0
    else (if a % 2 == 1 || b % 2 == 1 then 1 else 0) + 2 * Or(a / 2, b / 2, bits - 1)
  }

  /** The upper 12 bits of a device number. */
  function High(major: nat, excess: nat): (h: nat)
    requires major < MAJORS && excess < MAJORS
    ensures h < MAJORS && major <= h <= major + excess
  {
    assert Pow2(12) == MAJORS;
    Or(major, excess, 12)
  }

  /** (major << 20) | minor: a minor of more than 20 bits runs into the major. */
  function Mkdev(major: u32, minor: u32): u32 {
    High(major % MAJORS, minor / MINORS) * MINORS + minor % MINORS
  }

  function Major(dev: u32): u32 {
    dev / MINORS
  }

  function Minor(dev: u32): u32 {
    dev % MINORS
  }

  /** The number device `index` gets from a driver whose region starts at `devt`. */
  function DeviceNumber(devt: u32, index: u32): u32 {
    Mkdev(Major(devt), (Minor(devt) + index) % TWO_TO_THE_32)
  }

  /** What base minor plus index has beyond 20 bits. */
  function Excess(devt: u32, index: u32): nat {
    (Minor(devt) + index) / MINORS
  }

  // ----- One number -----

  /** The number is the `index`-th of the region exactly when or-ing the excess into the major adds it. */
  lemma NumberIsOffsetIff(devt: u32, index: u32)
    requires Minor(devt) + index < TWO_TO_THE_32
    ensures Excess(devt, index) < MAJORS
    ensures DeviceNumber(devt, index) == devt + index
            <==> High(Major(devt), Excess(devt, index)) == Major(devt) + Excess(devt, index)
    ensures DeviceNumber(devt, index) <= devt + index
  {
    hide High;
  }

  /** A number keeps the driver's major exactly when the excess has only bits of the major. */
  lemma MajorKeptIff(devt: u32, index: u32)
    requires Minor(devt) + index < TWO_TO_THE_32
    ensures Excess(devt, index) < MAJORS
    ensures Major(DeviceNumber(devt, index)) == Major(devt)
            <==> High(Major(devt), Excess(devt, index)) == Major(devt)
  {
    hide High;
  }

  /** A number unpacks to base minor plus index exactly when that minor has 20 bits, and then it keeps the major. */
  lemma UnpacksIff(devt: u32, index: u32)
    ensures Minor(DeviceNumber(devt, index)) == Minor(devt) + index <==> Minor(devt) + index < MINORS
    ensures Minor(devt) + index < MINORS ==>
              Major(DeviceNumber(devt, index)) == Major(devt) && DeviceNumber(devt, index) == devt + index
  {
    hide High;
  }

  // ----- The numbers of one driver -----

  /** Up to 2^20 slots always get distinct numbers, whatever the base minor. */
  lemma FewAreDistinct(devt: u32, count: u32, i: u32, j: u32)
    requires count <= MINORS && i < j < count
    ensures DeviceNumber(devt, i) != DeviceNumber(devt, j)
  {
    LowBits(devt, i);
    LowBits(devt, j);
    hide DeviceNumber;
  }

  /** The lower 20 bits of a number. */
  lemma LowBits(devt: u32, index: u32)
    ensures Minor(DeviceNumber(devt, index)) == (Minor(devt) + index) % MINORS
  {
    hide High;
  }

  /** With base minor plus count at most 2^20, numbers keep the major, and stay inside the region, in order. */
  lemma RegionHolds(devt: u32, count: u32, i: u32, j: u32)
    requires Minor(devt) + count <= MINORS && i < count && j < count
    ensures devt <= DeviceNumber(devt, i) < devt + count
    ensures Major(DeviceNumber(devt, i)) == Major(devt)
    ensures DeviceNumber(devt, i) == DeviceNumber(devt, j) <==> i == j
  {
    UnpacksIff(devt, i);
    UnpacksIff(devt, j);
    hide DeviceNumber, Major;
  }

  /** Number `index` of a driver whose region starts at minor 0, as every region of the framework does. */
  lemma FromMinorZero(devt: u32, index: u32)
    requires Minor(devt) == 0
    ensures DeviceNumber(devt, index) == High(Major(devt), index / MINORS) * MINORS + index % MINORS
    ensures devt <= DeviceNumber(devt, index) <= devt + index
  {
    hide High;
  }

  // ----- When a driver with a static major and many slots gets distinct numbers -----

  predicate Bit(a: nat, t: nat)
    decreases t
  {
    if t == 0 then a % 2 == 1 else Bit(a / 2, t - 1)
  }

  lemma {:induction false} PowersGrow(t: nat, n: nat)
    requires t <= n
    ensures Pow2(t) <= Pow2(n)
    decreases n
  {
    if t < n {
      PowersGrow(t, n - 1);
    }
  }

  lemma {:induction false} OrZero(a: nat, bits: nat)
    requires a < Pow2(bits)
    ensures Or(a, 0, bits) == a
    decreases bits
  {
    if bits > 0 {
      OrZero(a / 2, bits - 1);
    }
  }

  lemma HalfMultiple(a: nat, p: nat)
    requires p > 0
    ensures a % (2 * p) == 0 <==> a % 2 == 0 && (a / 2) % p == 0
  {
    if a % (2 * p) == 0 {
      var q := a / (2 * p);
      assert a == 2 * (p * q);
      assert (a / 2) % p == (p * q) % p == 0 by { Multiple(p, q); }
    }
    if a % 2 == 0 && (a / 2) % p == 0 {
      var q := (a / 2) / p;
      assert a == (2 * p) * q;
      Multiple(2 * p, q);
    }
  }

  lemma Multiple(p: nat, q: nat)
    requires p > 0
    ensures (p * q) % p == 0
  {
    var k, r := (p * q) / p, (p * q) % p;
    assert p * q == p * k + r;
    assert p * (q - k) == r;
    assert q - k >= 1 ==> p * (q - k) >= p;
    assert q - k <= -1 ==> p * (q - k) + p <= 0;
  }

  /** Below the lowest bit of `a`, or is addition. */
  lemma {:induction false} OrAdds(a: nat, b: nat, n: nat, bits: nat)
    requires a < Pow2(bits) && b < Pow2(bits) && a % Pow2(n) == 0 && b < Pow2(n)
    ensures Or(a, b, bits) == a + b
    decreases bits
  {
    if n == 0 {
      OrZero(a, bits);
    } else if bits > 0 {
      HalfMultiple(a, Pow2(n - 1));
      OrAdds(a / 2, b / 2, n - 1, bits - 1);
    }
  }

  /** Or-ing a bit that is set changes nothing. */
  lemma {:induction false} OrAbsorbs(a: nat, t: nat, bits: nat)
    requires a < Pow2(bits) && Pow2(t) < Pow2(bits) && Bit(a, t)
    ensures Or(a, Pow2(t), bits) == a
    decreases bits
  {
    if t == 0 {
      OrZero(a / 2, bits - 1);
    } else {
      OrAbsorbs(a / 2, t - 1, bits - 1);
    }
  }

  /** A number that is not a multiple of 2^n has one of its lowest `n` bits set. */
  lemma {:induction false} LowBit(a: nat, n: nat) returns (t: nat)
    requires a % Pow2(n) != 0
    ensures t < n && Bit(a, t)
    decreases n
  {
    if a % 2 == 1 {
      t := 0;
    } else {
      HalfMultiple(a, Pow2(n - 1));
      t := LowBit(a / 2, n - 1);
      t := t + 1;
    }
  }

  /** How many blocks of 2^20 numbers `count` slots take. */
  function Blocks(count: nat): nat {
    (count + MINORS - 1) / MINORS
  }

  /** The least `n` with `2^n >= k`. */
  function Bits(k: nat): (n: nat)
    ensures k <= Pow2(n) && (n > 0 ==> Pow2(n - 1) < k)
  {
    if k <= 1 then 0 else 1 + Bits((k + 1) / 2)
  }

  ghost predicate AllDistinct(devt: u32, count: u32) {
    forall i: u32, j: u32 :: i < j < count ==> DeviceNumber(devt, i) != DeviceNumber(devt, j)
  }

  lemma HighAdds(major: nat, excess: nat, n: nat)
    requires major < MAJORS && excess < MAJORS && major % Pow2(n) == 0 && excess < Pow2(n)
    ensures High(major, excess) == major + excess
  {
    assert Pow2(12) == MAJORS;
    hide Pow2, Or;
    OrAdds(major, excess, n, 12);
  }

  lemma HighAbsorbs(major: nat, t: nat)
    requires major < MAJORS && Pow2(t) < MAJORS && Bit(major, t)
    ensures High(major, Pow2(t)) == major == High(major, 0)
  {
    assert Pow2(12) == MAJORS;
    hide Pow2, Or, Bit;
    OrAbsorbs(major, t, 12);
    OrZero(major, 12);
  }

  /**
   The numbers of `count` slots are distinct exactly when the major is a multiple of the
   least power of two that is not below the number of blocks they take. Up to 2^20 slots
   that power is 1.
   */
  lemma DistinctIff(devt: u32, count: u32)
    requires Minor(devt) == 0
    ensures AllDistinct(devt, count) <==> Major(devt) % Pow2(Bits(Blocks(count))) == 0
  {
    var n := Bits(Blocks(count));
    if Major(devt) % Pow2(n) == 0 {
      forall i: u32, j: u32 | i < j < count
        ensures DeviceNumber(devt, i) != DeviceNumber(devt, j)
      {
        NumberInMultiple(devt, count, n, i);
        NumberInMultiple(devt, count, n, j);
      }
    } else {
      var t := LowBit(Major(devt), n);
      var j := CollidingSlot(devt, count, n, t);
    }
  }

  lemma CollidingSlot(devt: u32, count: u32, n: nat, t: nat) returns (j: u32)
    requires Minor(devt) == 0 && n == Bits(Blocks(count)) && t < n && Bit(Major(devt), t)
    ensures 0 < j < count && DeviceNumber(devt, 0) == DeviceNumber(devt, j)
  {
    PowersGrow(t, n - 1);
    j := BlockStart(count, Pow2(t));
    HighAbsorbs(Major(devt), t);
    hide *;
    SlotsCollide(devt, j);
  }

  lemma NumberInMultiple(devt: u32, count: u32, n: nat, i: u32)
    requires Minor(devt) == 0 && n == Bits(Blocks(count)) && Major(devt) % Pow2(n) == 0 && i < count
    ensures DeviceNumber(devt, i) == devt + i
  {
    FromMinorZero(devt, i);
    assert i / MINORS < Blocks(count) <= Pow2(n);
    hide Pow2, Bits, High;
    HighAdds(Major(devt), i / MINORS, n);
  }

  /** The first slot of block `e`. */
  lemma BlockStart(count: u32, e: nat) returns (j: u32)
    requires 0 < e < Blocks(count)
    ensures e < MAJORS && 0 < j < count && j / MINORS == e && j % MINORS == 0
  {
    j := MINORS * e;
  }

  /** The first slot of a block whose excess is absorbed by the major gets the number of slot 0. */
  lemma SlotsCollide(devt: u32, j: u32)
    requires Minor(devt) == 0 && j % MINORS == 0
    requires High(Major(devt), j / MINORS) == High(Major(devt), 0)
    ensures DeviceNumber(devt, 0) == DeviceNumber(devt, j)
  {
    FromMinorZero(devt, 0);
    FromMinorZero(devt, j);
    hide High, Minor, Major, DeviceNumber;
  }

  /** The first collision: slot 2^20 of major 1 gets the number of slot 0. */
  lemma NumbersCollide()
    ensures DeviceNumber(Mkdev(1, 0), MINORS) == DeviceNumber(Mkdev(1, 0), 0)
  {
    assert Pow2(0) == 1 && Bit(1, 0);
    HighAbsorbs(1, 0);
    hide High;
    assert Mkdev(1, 0) == MINORS;
    FromMinorZero(MINORS, 0);
    FromMinorZero(MINORS, MINORS);
  }

  /** What MKDEV makes of a static major is 0 exactly when its lowest 12 bits are. */
  lemma MkdevZeroIff(major: u32)
    ensures Mkdev(major, 0) == major % MAJORS * MINORS
    ensures Mkdev(major, 0) == 0 <==> major % MAJORS == 0
  {
    hide High;
  }
}
