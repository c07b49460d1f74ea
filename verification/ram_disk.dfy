/** The RAM block device: one bio, executed segment by segment on the disk's memory. */
module RamDisk {
  import opened Bytes

  const RAM_BLOCK_SIZE := 512
  const RAM_DEFAULT_MB := 8
  const TWO_TO_THE_32 := 0x1_0000_0000
  const TWO_TO_THE_64 := 0x1_0000_0000_0000_0000

  datatype Dir = Read | Write
  datatype Status = StsOk | StsIoErr

  /** A bio: where it starts, in sectors, and the memory of its segments. */
  datatype Bio = Bio(dir: Dir, sector: nat, segs: seq<array<byte>>)

  // ----- Where the segments lie -----

  predicate Aligned(segs: seq<seq<byte>>) {
    forall i :: 0 <= i < |segs| ==> |segs[i]| % RAM_BLOCK_SIZE == 0
  }

  /** `offs[i]` is the offset on the disk of segment `i`; the last entry is the end of the bio. */
  ghost predicate Layout(offs: seq<nat>, segs: seq<seq<byte>>) {
    && |offs| == |segs| + 1
    && (forall i {:trigger segs[i]} :: 0 <= i < |segs| ==> offs[i + 1] == offs[i] + |segs[i]|)
  }

  lemma {:induction false} OffsGrow(offs: seq<nat>, segs: seq<seq<byte>>, i: nat, j: nat)
    requires Layout(offs, segs) && i <= j <= |segs|
    ensures offs[i] <= offs[j]
    decreases j - i
  {
    if i < j {
      assert offs[j] == offs[j - 1] + |segs[j - 1]|;
      OffsGrow(offs, segs, i, j - 1);
    }
  }

  ghost function Offsets(sector: nat, segs: seq<seq<byte>>): (offs: seq<nat>)
    requires Aligned(segs)
    ensures Layout(offs, segs) && offs[0] == RAM_BLOCK_SIZE * sector
    decreases |segs|
  {
    if segs == [] then [RAM_BLOCK_SIZE * sector]
    else
      var rest := Offsets(sector + |segs[0]| / RAM_BLOCK_SIZE, segs[1..]);
      [RAM_BLOCK_SIZE * sector] + rest
  }

  lemma {:induction false} OffsetsEnd(sector: nat, segs: seq<seq<byte>>, k: nat)
    requires Aligned(segs) && k <= |segs|
    ensures Offsets(sector, segs)[k] == RAM_BLOCK_SIZE * sector + |Concat(segs[..k])|
    decreases k
  {
    if k > 0 {
      OffsetsEnd(sector + |segs[0]| / RAM_BLOCK_SIZE, segs[1..], k - 1);
      assert segs[..k][1..] == segs[1..][..k - 1];
    }
  }

  /** `k` is the length of the longest prefix of segments that ends within `size` bytes. */
  ghost predicate LongestFit(offs: seq<nat>, size: nat, k: nat)
    requires k < |offs|
  {
    forall j :: 0 < j < |offs| ==> (j <= k <==> offs[j] <= size)
  }

  // ----- The device -----

  ghost function Contents(segs: seq<array<byte>>): (r: seq<seq<byte>>)
    reads segs
    ensures |r| == |segs| && forall i :: 0 <= i < |segs| ==> r[i] == segs[i][..]
  {
    seq(|segs|, i requires 0 <= i < |segs| reads segs => segs[i][..])
  }

  class RamPriv {
    var data: array?<byte>
    var sectors: nat

    ghost predicate Valid()
      reads this
    {
      data != null ==> data.Length == sectors * RAM_BLOCK_SIZE < TWO_TO_THE_64
    }

    /** The size arithmetic of ram_init; `alive` says whether the allocation succeeds. */
    constructor (size_mb: nat, alive: bool)
      ensures Valid() && (data != null <==> alive)
      ensures 1 <= size_mb <= 1024 ==> sectors == 2048 * size_mb
      ensures !(1 <= size_mb <= 1024) ==> sectors == 2048 * RAM_DEFAULT_MB
      ensures alive ==> fresh(data) && forall i :: 0 <= i < data.Length ==> data[i] == 0
    {
      var mb := if size_mb == 0 || size_mb > 1024 then RAM_DEFAULT_MB else size_mb;
      // unsigned long is at least 32 bits wide
      sectors := mb * 1024 * 1024 % TWO_TO_THE_32 / RAM_BLOCK_SIZE;
      data := null;
      new;
      if alive {
        data := new byte[sectors * RAM_BLOCK_SIZE % TWO_TO_THE_32](_ => 0);
      }
    }
  }

  method CopyIn(dst: array<byte>, offset: nat, src: array<byte>)
    requires dst != src && offset + src.Length <= dst.Length
    modifies dst
    ensures IsSlice(dst[..], offset, src[..])
    ensures forall p :: 0 <= p < dst.Length && !(offset <= p < offset + src.Length) ==> dst[p] == old(dst[p])
  {
    forall j | 0 <= j < src.Length {
      dst[offset + j] := src[j];
    }
  }

  method CopyOut(dst: array<byte>, src: array<byte>, offset: nat)
    requires dst != src && offset + dst.Length <= src.Length
    modifies dst
    ensures IsSlice(src[..], offset, dst[..])
  {
    forall j | 0 <= j < dst.Length {
      dst[j] := src[offset + j];
    }
  }

  // ----- What copying some segments leaves -----

  /** The disk `now` after a write of the first `k` segments to the disk `was`. */
  ghost predicate Stored(was: seq<byte>, now: seq<byte>, segs: seq<seq<byte>>, offs: seq<nat>, k: nat)
    requires k <= |segs| && Layout(offs, segs)
  {
    && |now| == |was|
    && (forall j :: 0 <= j < k ==> IsSlice(now, offs[j], segs[j]))
    && (forall p :: 0 <= p < |was| && !(offs[0] <= p < offs[k]) ==> now[p] == was[p])
  }

  lemma StoreStep(was: seq<byte>, mid: seq<byte>, now: seq<byte>, segs: seq<seq<byte>>, offs: seq<nat>, i: nat)
    requires i < |segs| && Layout(offs, segs) && Stored(was, mid, segs, offs, i)
    requires |now| == |mid| && IsSlice(now, offs[i], segs[i])
    requires forall p :: 0 <= p < |mid| && !(offs[i] <= p < offs[i] + |segs[i]|) ==> now[p] == mid[p]
    ensures Stored(was, now, segs, offs, i + 1)
  {
    forall j | 0 <= j < i + 1
      ensures IsSlice(now, offs[j], segs[j])
    {
      if j < i {
        assert offs[j] + |segs[j]| == offs[j + 1];
        OffsGrow(offs, segs, j + 1, i);
        assert IsSlice(mid, offs[j], segs[j]);
        assert now[offs[j]..offs[j] + |segs[j]|] == mid[offs[j]..offs[j] + |segs[j]|];
      }
    }
    assert offs[i + 1] == offs[i] + |segs[i]|;
    OffsGrow(offs, segs, 0, i);
  }

  /** The last segment with a given memory is the one whose bytes stay in it. */
  predicate LastUse(bufs: seq<array<byte>>, j: nat, k: nat)
    requires j < k <= |bufs|
  {
    forall i :: j < i < k ==> bufs[i] != bufs[j]
  }

  /** None of the first `k` segments has the memory of segment `j`. */
  predicate NotUsed(bufs: seq<array<byte>>, j: nat, k: nat)
    requires j < |bufs| && k <= |bufs|
  {
    forall i :: 0 <= i < k ==> bufs[i] != bufs[j]
  }

  /** The buffers `now` after a read has filled the first `k` of them; `segs` is what they held. */
  ghost predicate Filled(disk: seq<byte>, bufs: seq<array<byte>>, segs: seq<seq<byte>>, now: seq<seq<byte>>,
                         offs: seq<nat>, k: nat)
    requires k <= |segs| == |bufs| == |now| && Layout(offs, segs)
  {
    && (forall j :: 0 <= j < k && LastUse(bufs, j, k) ==> IsSlice(disk, offs[j], now[j]))
    && (forall j :: k <= j < |segs| && NotUsed(bufs, j, k) ==> now[j] == segs[j])
  }

  lemma FillStep(disk: seq<byte>, bufs: seq<array<byte>>, segs: seq<seq<byte>>, mid: seq<seq<byte>>,
                 now: seq<seq<byte>>, offs: seq<nat>, i: nat)
    requires i < |segs| == |bufs| == |mid| == |now| && Layout(offs, segs)
    requires Filled(disk, bufs, segs, mid, offs, i)
    requires IsSlice(disk, offs[i], now[i])
    requires forall j :: 0 <= j < |segs| && bufs[j] != bufs[i] ==> now[j] == mid[j]
    ensures Filled(disk, bufs, segs, now, offs, i + 1)
  {
    forall j | 0 <= j < i + 1 && LastUse(bufs, j, i + 1)
      ensures IsSlice(disk, offs[j], now[j])
    {
      if j < i {
        assert bufs[i] != bufs[j];
        assert LastUse(bufs, j, i);
      }
    }
    forall j | i + 1 <= j < |segs| && NotUsed(bufs, j, i + 1)
      ensures now[j] == segs[j]
    {
      assert bufs[i] != bufs[j];
      assert NotUsed(bufs, j, i);
    }
  }

  // ----- Submitting a bio -----

  predicate Separate(segs: seq<array<byte>>, data: array?<byte>) {
    forall j :: 0 <= j < |segs| ==> segs[j] != data
  }

  function SegSet(segs: seq<array<byte>>): set<array<byte>> {
    set a | a in segs
  }

  /** What holds when the first `k` segments of a bio have been copied. */
  ghost predicate Copied(data: array<byte>, bio: Bio, segs: seq<seq<byte>>, disk: seq<byte>, offs: seq<nat>, k: nat)
    reads data, bio.segs
  {
    && k <= |segs| == |bio.segs| && Layout(offs, segs)
    && match bio.dir {
         case Write => Stored(disk, data[..], segs, offs, k) && Contents(bio.segs) == segs
         case Read => data[..] == disk && Filled(disk, bio.segs, segs, Contents(bio.segs), offs, k)
       }
  }

  /** Lines 58-63: the locked copy of segment `i`. */
  method CopySegment(data: array<byte>, bio: Bio, i: nat, offset: nat,
                     ghost segs: seq<seq<byte>>, ghost disk: seq<byte>, ghost offs: seq<nat>)
    requires Copied(data, bio, segs, disk, offs, i) && i < |segs| && Separate(bio.segs, data)
    requires offset == offs[i] && offset + bio.segs[i].Length <= data.Length
    modifies if bio.dir == Write then {data} else {bio.segs[i]}
    ensures Copied(data, bio, segs, disk, offs, i + 1)
  {
    ghost var mid, bufs := data[..], Contents(bio.segs);
    if bio.dir == Write {
      CopyIn(data, offset, bio.segs[i]);
      StoreStep(disk, mid, data[..], segs, offs, i);
    } else {
      CopyOut(bio.segs[i], data, offset);
      FillStep(disk, bio.segs, segs, bufs, Contents(bio.segs), offs, i);
    }
  }

  /** Lines 50-56: the bounds test and the offset of one segment, in the arithmetic of sector_t and size_t. */
  method TestBounds(sectors: nat, start: nat, len: nat, ghost at: nat, ghost end: nat)
    returns (fits: bool, next: nat, offset: nat)
    requires at == RAM_BLOCK_SIZE * start && len % RAM_BLOCK_SIZE == 0
    requires at + len <= end < RAM_BLOCK_SIZE * TWO_TO_THE_64 && sectors * RAM_BLOCK_SIZE < TWO_TO_THE_64
    ensures fits <==> at + len <= sectors * RAM_BLOCK_SIZE
    ensures fits ==> at + len == RAM_BLOCK_SIZE * next && offset == at
  {
    offset := start * RAM_BLOCK_SIZE % TWO_TO_THE_64;
    next := (start + len / RAM_BLOCK_SIZE) % TWO_TO_THE_64;
    fits := next <= sectors;
  }

  lemma FitStops(segs: seq<seq<byte>>, offs: seq<nat>, size: nat, i: nat)
    requires Layout(offs, segs) && i <= |segs|
    requires i > 0 ==> offs[i] <= size
    requires i < |segs| ==> offs[i + 1] > size
    ensures LongestFit(offs, size, i)
  {
    forall j | 0 < j < |offs|
      ensures j <= i <==> offs[j] <= size
    {
      if j <= i {
        OffsGrow(offs, segs, j, i);
      } else {
        OffsGrow(offs, segs, i + 1, j);
      }
    }
  }

  /** The sizes of a transfer, which do not change. */
  ghost predicate Sizes(data: array<byte>, sectors: nat, bio: Bio, segs: seq<seq<byte>>, offs: seq<nat>) {
    && |segs| == |bio.segs| == |offs| - 1 && Layout(offs, segs) && Aligned(segs) && Separate(bio.segs, data)
    && offs[0] == RAM_BLOCK_SIZE * bio.sector && offs[|segs|] < RAM_BLOCK_SIZE * TWO_TO_THE_64
    && data.Length == sectors * RAM_BLOCK_SIZE < TWO_TO_THE_64
    && forall j :: 0 <= j < |segs| ==> |segs[j]| == bio.segs[j].Length
  }

  lemma SizesAt(data: array<byte>, sectors: nat, bio: Bio, segs: seq<seq<byte>>, offs: seq<nat>, i: nat)
    requires Sizes(data, sectors, bio, segs, offs) && i < |segs|
    ensures |segs[i]| % RAM_BLOCK_SIZE == 0 && |segs[i]| == bio.segs[i].Length
    ensures offs[i + 1] == offs[i] + |segs[i]| <= offs[|segs|]
  {
    assert offs[i + 1] == offs[i] + |segs[i]|;
    OffsGrow(offs, segs, i + 1, |segs|);
  }

  /** The loop of ram_submit_bio; `segs` and `disk` are the contents on entry. */
  method Transfer(data: array<byte>, sectors: nat, bio: Bio,
                  ghost segs: seq<seq<byte>>, ghost disk: seq<byte>, ghost offs: seq<nat>)
    returns (st: Status, ghost k: nat)
    requires Sizes(data, sectors, bio, segs, offs) && Copied(data, bio, segs, disk, offs, 0)
    modifies if bio.dir == Write then {data} else SegSet(bio.segs)
    ensures k <= |segs| && Copied(data, bio, segs, disk, offs, k)
    ensures LongestFit(offs, data.Length, k)
    ensures st == StsOk <==> k == |segs|
  {
    hide Copied, Layout, Aligned, LongestFit, Separate, Contents;
    var start, i := bio.sector, 0;
    while i < |bio.segs|
      invariant i <= |segs| == |bio.segs|
      invariant Copied(data, bio, segs, disk, offs, i)
      invariant offs[i] == RAM_BLOCK_SIZE * start
      invariant i > 0 ==> offs[i] <= data.Length
    {
      SizesAt(data, sectors, bio, segs, offs, i);
      var fits, next, offset := TestBounds(sectors, start, bio.segs[i].Length, offs[i], offs[|segs|]);
      if !fits {
        FitStops(segs, offs, data.Length, i);
        return StsIoErr, i;
      }
      CopySegment(data, bio, i, offset, segs, disk, offs);
      start, i := next, i + 1;
    }
    FitStops(segs, offs, data.Length, i);
    return StsOk, i;
  }

  // ----- What it means for the flat disk -----

  lemma {:induction false} ConcatSnoc(segs: seq<seq<byte>>, i: nat)
    requires i < |segs|
    ensures Concat(segs[..i + 1]) == Concat(segs[..i]) + segs[i]
  {
    if i == 0 {
      assert segs[..1][1..] == [];
    } else {
      ConcatSnoc(segs[1..], i - 1);
      assert segs[..i + 1][1..] == segs[1..][..i];
      assert segs[..i][1..] == segs[1..][..i - 1];
    }
  }

  /** Segments that lie one after the other on a disk are one slice of it. */
  lemma {:induction false} SlicesJoin(disk: seq<byte>, segs: seq<seq<byte>>, offs: seq<nat>, k: nat)
    requires k <= |segs| && Layout(offs, segs) && offs[0] <= |disk|
    requires forall j :: 0 <= j < k ==> IsSlice(disk, offs[j], segs[j])
    ensures IsSlice(disk, offs[0], Concat(segs[..k])) && offs[k] == offs[0] + |Concat(segs[..k])|
  {
    if k > 0 {
      SlicesJoin(disk, segs, offs, k - 1);
      ConcatSnoc(segs, k - 1);
      assert IsSlice(disk, offs[k - 1], segs[k - 1]);
      assert offs[k] == offs[k - 1] + |segs[k - 1]|;
      assert offs[0] <= offs[k - 1] <= offs[k] <= |disk|;
      assert disk[offs[0]..offs[k]] == disk[offs[0]..offs[k - 1]] + disk[offs[k - 1]..offs[k]];
    }
  }

  /** A write of `k` segments is one flat copy of their concatenation. */
  lemma StoredIsSplice(was: seq<byte>, now: seq<byte>, segs: seq<seq<byte>>, offs: seq<nat>, k: nat)
    requires k <= |segs| && Layout(offs, segs) && Stored(was, now, segs, offs, k)
    requires k > 0 ==> offs[k] <= |was|
    ensures Concat(segs[..k]) != [] ==> offs[0] + |Concat(segs[..k])| <= |was|
    ensures now == Splice(was, offs[0], Concat(segs[..k]))
  {
    if k == 0 {
      assert now == was;
    } else {
      SlicesJoin(now, segs, offs, k);
      var c := Concat(segs[..k]);
      assert now == now[..offs[0]] + now[offs[0]..offs[k]] + now[offs[k]..];
      assert now[..offs[0]] == was[..offs[0]] && now[offs[k]..] == was[offs[k]..];
    }
  }

  predicate Distinct(bufs: seq<array<byte>>) {
    forall i, j :: 0 <= i < j < |bufs| ==> bufs[i] != bufs[j]
  }

  /** A read of `k` segments into distinct buffers is one flat read, cut at the buffers' sizes. */
  lemma FilledIsSlice(disk: seq<byte>, bufs: seq<array<byte>>, segs: seq<seq<byte>>, now: seq<seq<byte>>,
                      offs: seq<nat>, k: nat)
    requires k <= |segs| == |bufs| == |now| && Layout(offs, segs)
    requires forall j :: 0 <= j < |segs| ==> |now[j]| == |segs[j]|
    requires Filled(disk, bufs, segs, now, offs, k) && Distinct(bufs)
    requires k > 0 ==> offs[k] <= |disk|
    ensures Concat(now[..k]) != [] ==> IsSlice(disk, offs[0], Concat(now[..k]))
  {
    if k > 0 {
      OffsGrow(offs, segs, 0, k);
      assert Layout(offs, now) by {
        forall i | 0 <= i < |now|
          ensures offs[i + 1] == offs[i] + |now[i]|
        {
          assert |now[i]| == |segs[i]|;
        }
      }
      forall j | 0 <= j < k
        ensures IsSlice(disk, offs[j], now[j])
      {
        assert LastUse(bufs, j, k);
      }
      SlicesJoin(disk, now, offs, k);
    }
  }

  /** Every segment fits exactly when the end of the bio does. */
  lemma AllFitIff(sector: nat, segs: seq<seq<byte>>, sectors: nat, k: nat)
    requires Aligned(segs) && k <= |segs| && LongestFit(Offsets(sector, segs), sectors * RAM_BLOCK_SIZE, k)
    ensures k == |segs| <==> segs == [] || sector + |Concat(segs)| / RAM_BLOCK_SIZE <= sectors
  {
    var offs := Offsets(sector, segs);
    OffsetsEnd(sector, segs, |segs|);
    assert segs[..|segs|] == segs;
    ConcatAligned(segs);
    assert offs[|segs|] == RAM_BLOCK_SIZE * sector + |Concat(segs)|;
  }

  lemma {:induction false} ConcatAligned(segs: seq<seq<byte>>)
    requires Aligned(segs)
    ensures |Concat(segs)| % RAM_BLOCK_SIZE == 0
  {
    if segs != [] {
      assert |segs[0]| % RAM_BLOCK_SIZE == 0;
      ConcatAligned(segs[1..]);
    }
  }

  function Touched(priv: RamPriv?): set<array<byte>>
    reads priv
  {
    if priv == null || priv.data == null then {} else {priv.data}
  }

  /**
   What the block layer guarantees about a bio: whole blocks, an end that is a sector
   number, and buffers that are not the memory of the disk.
   */
  ghost predicate WellFormed(priv: RamPriv?, bio: Bio)
    reads priv, bio.segs
  {
    && Aligned(Contents(bio.segs))
    && bio.sector + |Concat(Contents(bio.segs))| / RAM_BLOCK_SIZE < TWO_TO_THE_64
    && (priv != null ==> Separate(bio.segs, priv.data))
  }

  /** The bytes of the first `k` segments. */
  ghost function Payload(segs: seq<seq<byte>>, k: nat): seq<byte>
    requires k <= |segs|
  {
    Concat(segs[..k])
  }

  /**
   OK exactly when the bio ends on the disk; `k` is the length of the longest prefix of
   segments that does.
   */
  ghost predicate Outcome(sector: nat, segs: seq<seq<byte>>, sectors: nat, st: Status, k: nat) {
    && k <= |segs| && Aligned(segs)
    && LongestFit(Offsets(sector, segs), sectors * RAM_BLOCK_SIZE, k)
    && (st == StsOk <==> k == |segs|)
    && (st == StsOk <==> segs == [] || sector + |Concat(segs)| / RAM_BLOCK_SIZE <= sectors)
  }

  /** The disk `now` is `was` after one flat copy of `bytes`, which lies within it. */
  ghost predicate FlatWrite(was: seq<byte>, now: seq<byte>, offset: nat, bytes: seq<byte>) {
    && (bytes != [] ==> offset + |bytes| <= |was|)
    && now == Splice(was, offset, bytes)
  }

  /**
   ram_submit_bio. `k` is how many segments were copied: all of them, or the longest
   prefix that ends on the disk.
   */
  method SubmitBio(priv: RamPriv?, bio: Bio) returns (st: Status, ghost k: nat)
    requires priv != null ==> priv.Valid()
    requires WellFormed(priv, bio)
    modifies if bio.dir == Write then Touched(priv) else SegSet(bio.segs)
    ensures priv == null || priv.data == null ==> st == StsIoErr && Contents(bio.segs) == old(Contents(bio.segs))
    ensures priv != null && priv.data != null ==>
              Outcome(bio.sector, old(Contents(bio.segs)), priv.sectors, st, k)
    ensures priv != null && priv.data != null && bio.dir == Write ==>
              && FlatWrite(old(priv.data[..]), priv.data[..], RAM_BLOCK_SIZE * bio.sector,
                           Payload(old(Contents(bio.segs)), k))
              && Contents(bio.segs) == old(Contents(bio.segs))
    ensures priv != null && priv.data != null && bio.dir == Read ==>
              && priv.data[..] == old(priv.data[..])
              && Filled(priv.data[..], bio.segs, old(Contents(bio.segs)), Contents(bio.segs),
                        Offsets(bio.sector, old(Contents(bio.segs))), k)
  {
    if priv == null || priv.data == null {
      return StsIoErr, 0;
    }
    ghost var segs, disk := Contents(bio.segs), priv.data[..];
    ghost var offs := Offsets(bio.sector, segs);
    OffsetsEnd(bio.sector, segs, |segs|);
    assert segs[..|segs|] == segs;
    st, k := Transfer(priv.data, priv.sectors, bio, segs, disk, offs);
    AllFitIff(bio.sector, segs, priv.sectors, k);
    if bio.dir == Write {
      StoredIsSplice(disk, priv.data[..], segs, offs, k);
    }
  }

  lemma ReadBack(was: seq<byte>, disk: seq<byte>, sectors: nat, r: Bio, segs: seq<seq<byte>>, now: seq<seq<byte>>,
                 bytes: seq<byte>)
    requires |segs| == |r.segs| == |now| && Distinct(r.segs)
    requires |disk| == sectors * RAM_BLOCK_SIZE && Outcome(r.sector, segs, sectors, StsOk, |segs|)
    requires forall j :: 0 <= j < |segs| ==> |now[j]| == |segs[j]|
    requires Filled(disk, r.segs, segs, now, Offsets(r.sector, segs), |segs|)
    requires |Concat(segs)| == |bytes| > 0 && FlatWrite(was, disk, RAM_BLOCK_SIZE * r.sector, bytes)
    ensures Concat(now) == bytes
  {
    SpliceHolds(was, RAM_BLOCK_SIZE * r.sector, bytes);
    ConcatLength(now, segs);
    assert now[..|segs|] == now;
    FilledIsSlice(disk, r.segs, segs, now, Offsets(r.sector, segs), |segs|);
  }

  /** What a write stored, a later read of the same range returns, however each is split. */
  method WriteThenRead(priv: RamPriv, w: Bio, r: Bio) returns (stored: Status, loaded: Status)
    requires priv.Valid() && priv.data != null && WellFormed(priv, w) && WellFormed(priv, r)
    requires w.dir == Write && r.dir == Read && w.sector == r.sector && Distinct(r.segs)
    requires |Concat(Contents(w.segs))| == |Concat(Contents(r.segs))| > 0
    modifies priv.data, SegSet(r.segs)
    ensures stored == loaded
    ensures stored == StsOk ==> Concat(Contents(r.segs)) == old(Concat(Contents(w.segs)))
  {
    hide Filled, LongestFit, Distinct, Offsets, FlatWrite;
    ghost var sent, size := Contents(w.segs), Contents(r.segs);
    ghost var k;
    stored, k := SubmitBio(priv, w);
    assert sent[..|sent|] == sent;
    loaded, k := SubmitBio(priv, r);
    if loaded == StsOk {
      ReadBack(old(priv.data[..]), priv.data[..], priv.sectors, r, size, Contents(r.segs), Concat(sent));
    }
  }
}
