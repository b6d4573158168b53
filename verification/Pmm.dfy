/**
 The x86 page-frame allocator: one bit per frame, packed eight to a byte.  A set bit is a
 frame in use.  `freePages` is the kernel's own counter, which the code keeps by hand.
 */
module Pmm {

  const PAGE_SIZE := 4096
  const U32 := 0x1_0000_0000
  const U64 := 0x1_0000_0000_0000_0000

  /** A byte as its eight bits, least significant first. */
  type Byte = b: seq<bool> | |b| == 8 witness seq(8, _ => false)

  const ALL_ONES: Byte := seq(8, _ => true)

  /** Whether frame `page` is in use. */
  predicate Used(bitmap: seq<Byte>, page: nat)
    requires page / 8 < |bitmap|
  {
    bitmap[page / 8][page % 8]
  }

  ghost predicate Covers(bitmap: seq<Byte>, total: nat) {
    total <= 8 * |bitmap|
  }

  /** The frames below `total` whose bit is clear. */
  ghost function FreeSet(bitmap: seq<Byte>, total: nat): set<nat>
    requires Covers(bitmap, total)
  {
    set p: nat | p < total && !Used(bitmap, p)
  }

  function SetBit(bitmap: seq<Byte>, page: nat): (r: seq<Byte>)
    requires page / 8 < |bitmap|
    ensures |r| == |bitmap|
  {
    bitmap[page / 8 := bitmap[page / 8][page % 8 := true]]
  }

  function ClearBit(bitmap: seq<Byte>, page: nat): (r: seq<Byte>)
    requires page / 8 < |bitmap|
    ensures |r| == |bitmap|
  {
    bitmap[page / 8 := bitmap[page / 8][page % 8 := false]]
  }

  /** Byte-packed updates touch exactly one frame's bit. */
  lemma {:induction false} BitUpdatesOneFrame(bitmap: seq<Byte>, page: nat, other: nat)
    requires page / 8 < |bitmap| && other / 8 < |bitmap|
    ensures Used(SetBit(bitmap, page), other) <==> other == page || Used(bitmap, other)
    ensures Used(ClearBit(bitmap, page), other) <==> other != page && Used(bitmap, other)
  {
  }

  lemma {:induction false} FreeSetAfterSet(bitmap: seq<Byte>, total: nat, page: nat)
    requires Covers(bitmap, total) && page < total
    ensures FreeSet(SetBit(bitmap, page), total) == FreeSet(bitmap, total) - {page}
  {
    forall p: nat | p < total
      ensures p in FreeSet(SetBit(bitmap, page), total) <==> p in FreeSet(bitmap, total) - {page}
    {
      BitUpdatesOneFrame(bitmap, page, p);
    }
  }

  lemma {:induction false} FreeSetAfterClear(bitmap: seq<Byte>, total: nat, page: nat)
    requires Covers(bitmap, total) && page < total
    ensures FreeSet(ClearBit(bitmap, page), total) == FreeSet(bitmap, total) + {page}
  {
    forall p: nat | p < total
      ensures p in FreeSet(ClearBit(bitmap, page), total) <==> p in FreeSet(bitmap, total) + {page}
    {
      BitUpdatesOneFrame(bitmap, page, p);
    }
  }

  /** A run of `count` free frames starting at `i`. */
  ghost predicate FreeRun(free: set<nat>, i: nat, count: nat) {
    forall p: nat :: i <= p < i + count ==> p in free
  }

  predicate Between(lo: int, p: int, hi: int) {
    lo <= p < hi
  }

  ghost function Range(lo: int, hi: int): set<nat> {
    set p: nat | p < hi && Between(lo, p, hi)
  }

  lemma {:induction false} RangeSize(lo: nat, hi: nat)
    requires lo <= hi
    ensures |Range(lo, hi)| == hi - lo
  {
    if lo < hi {
      RangeSize(lo, hi - 1);
      assert Range(lo, hi) == Range(lo, hi - 1) + {hi - 1};
    } else {
      assert Range(lo, hi) == {};
    }
  }

  /** The number of bitmap pages pmm_init sets aside for `total` frames. */
  function BitmapPages(total: nat): nat {
    var pages := (total / 8 + PAGE_SIZE - 1) / PAGE_SIZE;
    if pages == 0 then 1 else pages
  }

  /**
   The bitmap covers every frame unless the frame count leaves a partial last byte just as
   the whole bytes fill their pages exactly: `total / 8` drops that byte.
   */
  lemma {:induction false} BitmapCoversIff(total: nat)
    ensures total <= 8 * PAGE_SIZE * BitmapPages(total) <==>
            total < 8 || total % 8 == 0 || total / 8 % PAGE_SIZE != 0
  {
    var bytes := total / 8;
    var full, part := bytes / PAGE_SIZE, bytes % PAGE_SIZE;
    assert bytes == PAGE_SIZE * full + part;
    assert (bytes + PAGE_SIZE - 1) / PAGE_SIZE == if part == 0 then full else full + 1 by {
      if part == 0 {
        assert bytes + PAGE_SIZE - 1 == PAGE_SIZE * full + (PAGE_SIZE - 1);
      } else {
        assert bytes + PAGE_SIZE - 1 == PAGE_SIZE * (full + 1) + (part - 1);
      }
    }
  }

  lemma {:induction false} BitmapCoverageCounterexample()
    ensures 32769 > 8 * PAGE_SIZE * BitmapPages(32769)
  {
    assert BitmapPages(32769) == 1;
  }

  /** One entry of the firmware memory map. */
  datatype Area = Area(addr: nat, len: nat, available: bool)

  /** Page `p` lies wholly in the area. */
  ghost predicate Whole(a: Area, p: nat) {
    a.addr <= p * PAGE_SIZE && (p + 1) * PAGE_SIZE <= a.addr + a.len
  }

  /** The numbers of the first whole page and of the one the area ends in. */
  function LowPage(a: Area): nat {
    (a.addr + PAGE_SIZE - 1) / PAGE_SIZE
  }

  function HighPage(a: Area): nat {
    (a.addr + a.len) / PAGE_SIZE
  }

  /** The page numbers fit 32 bits, or the area is above them and their low halves leave nothing between. */
  predicate NumbersFit(a: Area) {
    if LowPage(a) < U32 then HighPage(a) < U32 else LowPage(a) % U32 >= HighPage(a) % U32
  }

  lemma {:induction false} WholeIs(a: Area, p: nat)
    ensures Whole(a, p) <==> LowPage(a) <= p < HighPage(a)
  {
    var x, y := a.addr + PAGE_SIZE - 1, a.addr + a.len;
    assert x == PAGE_SIZE * (x / PAGE_SIZE) + x % PAGE_SIZE;
    assert y == PAGE_SIZE * (y / PAGE_SIZE) + y % PAGE_SIZE;
  }

  /** Cutting an address to 64 bits does not change the low 32 bits of its page number. */
  lemma {:induction false} LowHalf(x: nat)
    ensures x % U64 / PAGE_SIZE % U32 == x / PAGE_SIZE % U32
  {
    var q, r := x / U64, x % U64;
    assert x == PAGE_SIZE * (0x10_0000_0000_0000 * q + r / PAGE_SIZE) + r % PAGE_SIZE;
    assert x / PAGE_SIZE == 0x10_0000_0000_0000 * q + r / PAGE_SIZE;
    assert x / PAGE_SIZE == U32 * (0x10_0000 * q) + r / PAGE_SIZE;
  }

  /** The pages pmm_init frees for an area are its whole pages if and only if the page numbers fit. */
  lemma {:induction false} AreaIff(a: Area)
    ensures (forall p: nat :: p < U32 ==> (FrameAllocator.InArea(a, p) <==> Whole(a, p))) <==> NumbersFit(a)
  {
    LowHalf(a.addr + PAGE_SIZE - 1);
    LowHalf(a.addr + a.len);
    var low, high := LowPage(a), HighPage(a);
    assert FrameAllocator.FirstPage(a) == low % U32 && FrameAllocator.EndPage(a) == high % U32;
    hide LowPage, HighPage;
    forall p: nat
      ensures Whole(a, p) <==> low <= p < high
    {
      WholeIs(a, p);
    }
    if !NumbersFit(a) {
      var p: nat := if low < U32 then U32 - 1 else low % U32;
      assert FrameAllocator.InArea(a, p) != Whole(a, p);
    }
  }

  /** 64 kilobytes at 2^44 make page 3 free, which is not in them. */
  lemma {:induction false} HighAreaCounterexample()
    ensures var a := Area(0x1000_0000_0000, 0x1_0000, true);
      !NumbersFit(a) && FrameAllocator.InArea(a, 3) && !Whole(a, 3)
  {
  }

  /** A page range reserved at boot: kernel image, bitmap, module or boot information. */
  datatype Reservation = Reservation(first: nat, end: nat)

  class FrameAllocator {
    var bitmap: seq<Byte>
    var totalPages: nat
    var freePages: nat

    ghost predicate Counted()
      reads this
    {
      && Covers(bitmap, totalPages)
      && freePages == |FreeSet(bitmap, totalPages)|
      && totalPages < U32
    }

    /** Frame 0 belongs to the kernel image, so the null result never names a free frame. */
    ghost predicate Valid()
      reads this
    {
      Counted() && 0 !in Free()
    }

    ghost function Free(): set<nat>
      requires Counted()
      reads this
    {
      FreeSet(bitmap, totalPages)
    }

    /**
     The bitmap passes of pmm_init: everything starts used, the available areas are freed,
     then the kernel image, the bitmap, the modules and the boot information are taken back.
     */
    constructor (bitmapPages: nat, total: nat, areas: seq<Area>, reserved: seq<Reservation>)
      requires total < U32 && total <= 8 * PAGE_SIZE * bitmapPages
      ensures Counted() && totalPages == total
      ensures forall p: nat :: p in Free() <==> p < total && Offered(areas, p) && !Taken(reserved, p)
      ensures (forall a :: a in areas && a.available ==> NumbersFit(a)) ==> forall p: nat ::
        p in Free() <==> p < total && (exists a :: a in areas && a.available && Whole(a, p)) && !Taken(reserved, p)
      ensures (exists r :: r in reserved && r.first == 0 < r.end) ==> Valid()
    {
      bitmap := seq(bitmapPages * PAGE_SIZE, _ => ALL_ONES);
      totalPages := total;
      freePages := 0;
      new;
      assert Free() == {};
      for k := 0 to |areas|
        invariant Counted() && totalPages == total
        invariant forall p: nat :: p in Free() <==> p < total && Offered(areas[..k], p)
      {
        if areas[k].available {
          FreeArea(areas[k]);
        }
        assert areas[..k + 1] == areas[..k] + [areas[k]];
      }
      assert areas[..|areas|] == areas;
      for k := 0 to |reserved|
        invariant Counted() && totalPages == total
        invariant forall p: nat :: p in Free() <==> p < total && Offered(areas, p) && !Taken(reserved[..k], p)
      {
        Reserve(reserved[k]);
        assert reserved[..k + 1] == reserved[..k] + [reserved[k]];
      }
      assert reserved[..|reserved|] == reserved;
      if forall a :: a in areas && a.available ==> NumbersFit(a) {
        forall p: nat | p < total
          ensures Offered(areas, p) <==> exists a :: a in areas && a.available && Whole(a, p)
        {
          OfferedWhole(areas, p);
        }
      }
    }

    /** An available area has the page. */
    static ghost predicate Offered(areas: seq<Area>, p: nat) {
      exists a :: a in areas && a.available && InArea(a, p)
    }

    /** A range pmm_init sets aside has the page. */
    static ghost predicate Taken(reserved: seq<Reservation>, p: nat) {
      exists r :: r in reserved && r.first <= p < r.end
    }

    static lemma {:induction false} OfferedWhole(areas: seq<Area>, p: nat)
      requires p < U32 && forall a :: a in areas && a.available ==> NumbersFit(a)
      ensures Offered(areas, p) <==> exists a :: a in areas && a.available && Whole(a, p)
    {
      forall a | a in areas && a.available
        ensures InArea(a, p) <==> Whole(a, p)
      {
        AreaIff(a);
      }
    }

    /** The 32-bit page numbers pmm_init computes from a 64-bit area. */
    static function FirstPage(a: Area): nat {
      (a.addr + PAGE_SIZE - 1) % U64 / PAGE_SIZE % U32
    }

    static function EndPage(a: Area): nat {
      (a.addr + a.len) % U64 / PAGE_SIZE % U32
    }

    static ghost predicate InArea(a: Area, p: nat) {
      FirstPage(a) <= p < EndPage(a)
    }

    /** Sets a clear bit and counts the frame out. */
    method Take(page: nat)
      requires Counted() && page in Free()
      modifies this
      ensures Counted() && totalPages == old(totalPages)
      ensures Free() == old(Free()) - {page}
    {
      FreeSetAfterSet(bitmap, totalPages, page);
      assert page in Free();
      bitmap := SetBit(bitmap, page);
      freePages := freePages - 1;
    }

    /** Clears a set bit and counts the frame in; a clear bit is left alone. */
    method Give(page: nat)
      requires Counted() && page < totalPages
      modifies this
      ensures Counted() && totalPages == old(totalPages)
      ensures Free() == old(Free()) + {page}
    {
      if Used(bitmap, page) {
        FreeSetAfterClear(bitmap, totalPages, page);
        bitmap := ClearBit(bitmap, page);
        freePages := freePages + 1;
      }
    }

    method FreeArea(a: Area)
      requires Counted()
      modifies this
      ensures Counted() && totalPages == old(totalPages)
      ensures forall p: nat :: p in Free() <==> p in old(Free()) || (InArea(a, p) && p < totalPages)
      ensures NumbersFit(a) ==> forall p: nat :: p in Free() <==> p in old(Free()) || (Whole(a, p) && p < totalPages)
    {
      AreaIff(a);
      var first, end := FirstPage(a), EndPage(a);
      if first >= totalPages {
        return;
      }
      if end > totalPages {
        end := totalPages;
      }
      var i := first;
      while i < end
        invariant first <= i && (i <= end || i == first)
        invariant Counted() && totalPages == old(totalPages)
        invariant forall p: nat :: p in Free() <==> p in old(Free()) || first <= p < i
      {
        Give(i);
        i := i + 1;
      }
    }

    method Reserve(r: Reservation)
      requires Counted()
      modifies this
      ensures Counted() && totalPages == old(totalPages)
      ensures forall p: nat :: p in Free() <==> p in old(Free()) && !(r.first <= p < r.end)
    {
      var i := r.first;
      while i < r.end && i < totalPages
        invariant r.first <= i && (i <= r.end || i == r.first)
        invariant Counted() && totalPages == old(totalPages)
        invariant forall p: nat :: p in Free() <==> p in old(Free()) && !(r.first <= p < i)
      {
        if !Used(bitmap, i) {
          Take(i);
        }
        i := i + 1;
      }
    }

    /** Returns the address of the lowest free frame, or 0 exactly when none is free. */
    method AllocPage() returns (addr: nat)
      requires Valid()
      modifies this
      ensures Valid() && totalPages == old(totalPages)
      ensures addr == 0 <==> old(Free()) == {}
      ensures addr == 0 ==> Free() == old(Free())
      ensures addr != 0 ==>
        && addr % PAGE_SIZE == 0
        && addr / PAGE_SIZE in old(Free())
        && Free() == old(Free()) - {addr / PAGE_SIZE}
        && forall p :: p in old(Free()) ==> addr / PAGE_SIZE <= p
    {
      hide FreeSet;
      FreeSetIs();
      addr := 0;
      if freePages == 0 {
        return;
      }
      ghost var page :| page in Free();
      var i := 0;
      while i < totalPages
        invariant i <= page
        invariant forall p: nat :: p < i ==> p !in Free()
      {
        if !Used(bitmap, i) {
          assert i in Free();
          Take(i);
          addr := i * PAGE_SIZE;
          assert addr % PAGE_SIZE == 0 && addr / PAGE_SIZE == i;
          return;
        }
        i := i + 1;
      }
    }

    lemma {:induction false} FreeSetIs()
      requires Counted()
      ensures forall p: nat :: p in Free() <==> p < totalPages && !Used(bitmap, p)
    {
    }

    /** Returns the lowest run of `count` free frames, or 0 exactly when there is none. */
    method AllocPages(count: nat) returns (addr: nat)
      requires Valid() && count < U32
      modifies this
      ensures Valid() && totalPages == old(totalPages)
      ensures addr == 0 ==> Free() == old(Free())
      ensures addr == 0 <==> count == 0 || forall i: nat :: !FreeRun(old(Free()), i, count)
      ensures addr != 0 ==>
        && addr % PAGE_SIZE == 0
        && FreeRun(old(Free()), addr / PAGE_SIZE, count)
        && (forall i: nat :: i < addr / PAGE_SIZE ==> !FreeRun(old(Free()), i, count))
        && (forall p: nat :: p in Free() <==>
              p in old(Free()) && !(addr / PAGE_SIZE <= p < addr / PAGE_SIZE + count))
    {
      if count == 0 || freePages < count {
        TooMany(count);
        return 0;
      }
      var i := FindRun(count);
      if i < 0 {
        return 0;
      }
      assert i in Free();
      TakeRun(i, count);
      return i * PAGE_SIZE;
    }

    /** The two nested scans of pmm_alloc_pages: the lowest run, or -1. */
    method FindRun(count: nat) returns (at: int)
      requires Valid() && 0 < count <= freePages
      ensures at < 0 ==> forall i: nat :: !FreeRun(Free(), i, count)
      ensures at >= 0 ==> FreeRun(Free(), at, count) && forall i: nat :: i < at ==> !FreeRun(Free(), i, count)
    {
      AtMostTotal();
      var i := 0;
      while i <= totalPages - count
        invariant forall k: nat :: k < i ==> !FreeRun(Free(), k, count)
      {
        var j := RunLength(i, count);
        if j == count {
          return i;
        }
        assert i + j !in Free();
        i := i + 1;
      }
      forall k: nat ensures !FreeRun(Free(), k, count) {
        if k >= i {
          assert k + count - 1 !in Free();
        }
      }
      return -1;
    }

    method RunLength(i: nat, count: nat) returns (j: nat)
      requires Valid() && i + count <= totalPages
      ensures j <= count && FreeRun(Free(), i, j) && (j < count ==> i + j !in Free())
    {
      j := 0;
      while j < count && !Used(bitmap, i + j)
        invariant j <= count
        invariant FreeRun(Free(), i, j)
      {
        j := j + 1;
      }
    }

    lemma {:induction false} TooMany(count: nat)
      requires Valid()
      ensures count > freePages ==> forall i: nat :: !FreeRun(Free(), i, count)
    {
      forall i: nat | FreeRun(Free(), i, count)
        ensures count <= freePages
      {
        RunFits(Free(), i, count);
      }
    }

    lemma {:induction false} AtMostTotal()
      requires Counted()
      ensures freePages <= totalPages
    {
      RangeSize(0, totalPages);
      SubsetSize(Free(), Range(0, totalPages));
    }

    method TakeRun(i: nat, count: nat)
      requires Valid() && FreeRun(Free(), i, count)
      modifies this
      ensures Valid() && totalPages == old(totalPages)
      ensures forall p: nat :: p in Free() <==> p in old(Free()) && !(i <= p < i + count)
    {
      for k := 0 to count
        invariant Valid() && totalPages == old(totalPages)
        invariant forall p: nat :: p in Free() <==> p in old(Free()) && !(i <= p < i + k)
      {
        Take(i + k);
      }
    }

    /**
     Frees a frame; addresses out of range and frames already free are ignored.  Frame 0 is freed
     like any other, and then NULL names a free frame.
     */
    method FreePage(addr: nat)
      requires Counted()
      modifies this
      ensures Counted() && totalPages == old(totalPages)
      ensures Valid() <==> old(Valid()) && (addr >= PAGE_SIZE || totalPages == 0)
      ensures forall p: nat :: p in Free() <==> p in old(Free()) || (p == addr / PAGE_SIZE && p < totalPages)
    {
      var page := addr / PAGE_SIZE;
      if page < totalPages {
        Give(page);
      }
    }

    /** Frees each frame of the run, ignoring the same ones. */
    method FreePages(addr: nat, count: nat)
      requires Counted()
      modifies this
      ensures Counted() && totalPages == old(totalPages)
      ensures Valid() <==> old(Valid()) && (addr >= PAGE_SIZE || totalPages == 0 || count == 0)
      ensures forall p: nat :: p in Free() <==>
        p in old(Free()) || (addr / PAGE_SIZE <= p < addr / PAGE_SIZE + count && p < totalPages)
    {
      hide FreeSet;
      var start := addr / PAGE_SIZE;
      for i := 0 to count
        invariant Counted() && totalPages == old(totalPages)
        invariant forall p: nat :: p in Free() <==>
          p in old(Free()) || (start <= p < start + i && p < totalPages)
      {
        if start + i < totalPages {
          Give(start + i);
        }
      }
    }
  }

  lemma {:induction false} RunFits(free: set<nat>, i: nat, count: nat)
    requires FreeRun(free, i, count)
    ensures count <= |free|
  {
    RangeSize(i, i + count);
    SubsetSize(Range(i, i + count), free);
  }

  lemma {:induction false} SubsetSize(a: set<nat>, b: set<nat>)
    requires a <= b
    ensures |a| <= |b|
  {
    if a != {} {
      var x :| x in a;
      SubsetSize(a - {x}, b - {x});
    }
  }
}
