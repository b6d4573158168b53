/**
 The amd64 kernel heap: kmalloc and kfree over headers kept in mapped memory, with the break
 grown and shrunk page by page out of the frame allocator.  The ghost field `bs` is the block
 layout that the headers spell out.
 */
module Heap {
  import opened HeapLayout
  import opened HeapLinks
  import Pmm

  const PAGE := 4096
  const U32 := 0x1_0000_0000
  const U64 := 0x1_0000_0000_0000_0000
  const FLOOR := HEAP_START + 4 * PAGE
  const MAX_WALK := 8 * 1024 * 1024

  /** HEAP_ALIGN on the 32-bit argument: the addition wraps. */
  function Align32(size: nat): nat {
    (size + 15) % U32 / 16 * 16
  }

  function Need(size: nat): int {
    var need := HEADER + Align32(size);
    if need < MIN_BLOCK then MIN_BLOCK else need
  }

  /** The payload holds the requested bytes exactly when the rounding does not wrap. */
  lemma {:induction false} PayloadHoldsIff(size: nat)
    requires 0 < size < U32
    ensures GoodNeed(Need(size))
    ensures Need(size) - HEADER >= size <==> size <= U32 - 16
  {
  }

  /** Unless it wraps, the request is the least block: 16-byte units, 32 bytes at least, header and payload in it. */
  lemma {:induction false} NeedIsLeast(size: nat, n: int)
    requires 0 < size <= U32 - 16
    ensures BlockFor(Need(size), size) && (BlockFor(n, size) ==> Need(size) <= n)
  {
  }

  predicate BlockFor(n: int, size: nat) {
    n % 16 == 0 && n >= 32 && n >= size + 16
  }

  lemma {:induction false} PayloadCounterexample()
    ensures Need(U32 - 1) == MIN_BLOCK
  {
  }

  /** Every word of every outstanding payload is still there and unchanged. */
  ghost predicate PayloadsKept(live: set<Block>, mem: Memory, mem': Memory) {
    forall b, a :: b in live && b.addr + HEADER <= a < b.End() && a in mem ==> a in mem' && mem'[a] == mem[a]
  }

  /** HEAP_SIZE_MASK drops the free bit. */
  function Masked(raw: int): int {
    raw - raw % 2
  }

  lemma {:induction false} MaskedSize(b: Block)
    requires WellSized(b)
    ensures Masked(b.size + 1) == b.size && Masked(b.size) == b.size
    ensures (b.size + 1) % 2 == 1 && b.size % 2 == 0
  {
  }

  lemma {:induction false} TakeStep(bs: seq<Block>, brk: int, mem: Memory, head: int, j: nat, p: int, need: int)
    requires Good(bs, brk) && Linked(bs, mem, head) && GoodNeed(need)
    requires j < |bs| && bs[j].free && PrevFree(bs, j, p) && need <= bs[j].size < need + MIN_BLOCK
    ensures Good(Carve(bs, j, need), brk)
    ensures var next := NextAddr(bs, j + 1);
      Linked(Carve(bs, j, need),
             LinkMem(bs, mem, p, next)[bs[j].addr := bs[j].size][bs[j].addr + 8 := MAGIC],
             LinkHead(head, p, next))
  {
    CarveGood(bs, brk, j, need);
    TakeLinked(bs, brk, mem, head, j, p);
  }

  lemma {:induction false} SplitStep(bs: seq<Block>, brk: int, mem: Memory, head: int, j: nat, p: int, need: int)
    requires Good(bs, brk) && Linked(bs, mem, head) && GoodNeed(need)
    requires j < |bs| && bs[j].free && PrevFree(bs, j, p) && bs[j].size - need >= MIN_BLOCK
    ensures Good(Carve(bs, j, need), brk)
    ensures var split, next := bs[j].addr + need, NextAddr(bs, j + 1);
      var m1 := mem[split := bs[j].size - need + 1][split + 8 := next];
      Linked(Carve(bs, j, need),
             LinkMem(bs, m1, p, split)[bs[j].addr := need][bs[j].addr + 8 := MAGIC],
             LinkHead(head, p, split))
  {
    CarveGood(bs, brk, j, need);
    SplitLinked(bs, brk, mem, head, j, p, need);
  }

  /** Address `a` lies in no outstanding payload. */
  ghost predicate Outside(live: set<Block>, a: int) {
    forall b :: b in live ==> !(b.addr + HEADER <= a < b.End())
  }

  lemma {:induction false} BlockWords(bs: seq<Block>, brk: int, i: nat, a: int)
    requires Tiled(bs, brk) && Shaped(bs)
    requires i < |bs| && bs[i].addr <= a < bs[i].End()
    requires bs[i].free || a < bs[i].addr + HEADER
    ensures Outside(Live(bs), a)
  {
    forall b | b in Live(bs)
      ensures !(b.addr + HEADER <= a < b.End())
    {
      var j :| 0 <= j < |bs| && bs[j] == b;
      if j < i {
        Ordered(bs, brk, j, i);
      } else if i < j {
        Ordered(bs, brk, i, j);
      }
    }
  }

  /** Walking the list from a position after `steps` free blocks cannot run into the limit. */
  ghost predicate WalkedTo(bs: seq<Block>, brk: int, k: nat, steps: nat) {
    && k <= |bs|
    && (k > 0 ==> bs[k - 1].free)
    && At(bs, brk, k) >= HEAP_START + 64 * steps - (if k > 0 then 32 else 0)
  }

  lemma {:induction false} WalkStaysBelowLimit(bs: seq<Block>, brk: int, k: nat, steps: nat)
    requires Laid(bs, brk)
    requires WalkedTo(bs, brk, k, steps) && FirstFree(bs, k) < |bs|
    ensures steps < MAX_WALK
    ensures WalkedTo(bs, brk, FirstFree(bs, k) + 1, steps + 1)
  {
    var j := FirstFree(bs, k);
    Bounds(bs, brk, j);
    assert Meets(bs, brk, j);
    if k > 0 {
      assert !BothFree(bs, k - 1);
      Ordered(bs, brk, k, j);
    } else if j > 0 {
      Ordered(bs, brk, 0, j);
    }
  }

  /** The word addresses from HEAP_START up to `end`. */
  ghost function Words(end: int): set<int> {
    set a | HEAP_START <= a < end && a % 8 == 0
  }

  lemma {:induction false} HeaderWords(a: int, end: int)
    requires HEAP_START <= a <= end - 16 && a % 16 == 0
    ensures a in Words(end) && a + 8 in Words(end)
  {
    MultipleOf8(a);
  }

  lemma {:induction false} MultipleOf8(a: int)
    requires a % 16 == 0
    ensures a % 8 == 0 && (a + 8) % 8 == 0
  {
  }

  predicate PageAligned(a: int, n: int) {
    a == HEAP_START + PAGE * n
  }

  /** The pages to map between `end` and `addr`. */
  function Missing(end: int, addr: int): nat {
    if addr <= end then 0 else (addr - end + PAGE - 1) / PAGE
  }

  lemma {:induction false} MissingIs(end: int, addr: int, n: nat)
    ensures end + PAGE * n < addr <==> n < Missing(end, addr)
  {
    if addr > end {
      var x := addr - end + PAGE - 1;
      assert x == PAGE * (x / PAGE) + x % PAGE;
    }
  }

  /** Where the mapping has to reach for a break at `brk`: the page that covers it, and the first four at least. */
  function Kept(brk: int): int {
    var covered := HEAP_START + PAGE * Missing(HEAP_START, brk);
    if covered < FLOOR then FLOOR else covered
  }

  function Lower(a: int, b: int): int {
    if a < b then a else b
  }

  predicate CanMapPage(canMap: int -> bool, end: int, i: int) {
    canMap(end + PAGE * i)
  }

  /** There are frames for the pages up to `addr`, and all of them can be mapped. */
  ghost predicate Extensible(frames: nat, canMap: int -> bool, end: int, addr: int) {
    Missing(end, addr) <= frames && forall i :: 0 <= i < Missing(end, addr) ==> CanMapPage(canMap, end, i)
  }

  class KernelHeap {
    var mem: Memory
    var freeList: int
    var mappedEnd: int
    var brk: int
    var pages: seq<nat>  // the frame under each mapped page, from HEAP_START up
    const pmm: Pmm.FrameAllocator
    ghost var bs: seq<Block>

    ghost predicate Mapped()
      reads this
    {
      && HEAP_START <= brk <= mappedEnd <= HEAP_END
      && mappedEnd == HEAP_START + PAGE * |pages|
      && mem.Keys == Words(mappedEnd)
    }

    /** Each mapped page has a frame of its own, which the frame allocator counts as used. */
    ghost predicate Backed()
      reads this, pmm
    {
      && pmm.Valid()
      && (forall i :: 0 <= i < |pages| ==> 0 < pages[i] < pmm.totalPages && pages[i] !in pmm.Free())
      && (forall i, j :: 0 <= i < j < |pages| ==> pages[i] != pages[j])
    }

    ghost predicate Valid()
      reads this, pmm
    {
      Good(bs, brk) && Linked(bs, mem, freeList) && Mapped() && Backed()
    }

    /** The frames that are free or under the heap. */
    ghost predicate Owned(f: nat)
      requires pmm.Counted()
      reads this, pmm
    {
      f in pmm.Free() || f in pages
    }

    /** heap_init: an empty heap with the initial pages mapped, as far as they can be had. */
    constructor (pmm: Pmm.FrameAllocator, canMap: int -> bool)
      requires pmm.Valid()
      modifies pmm
      ensures this.pmm == pmm && Valid() && bs == [] && brk == HEAP_START
      ensures forall f: nat :: Owned(f) <==> f in old(pmm.Free())
    {
      this.pmm := pmm;
      mem, freeList, pages := map[], 0, [];
      mappedEnd, brk := HEAP_START, HEAP_START;
      bs := [];
      new;
      var _ := MapUntil(FLOOR, canMap);
    }

    /**
     heap_map_until: extends the mapping page by page to the page that covers `addr` and no further,
     one frame each.  It succeeds if and only if there are frames enough and every page can be
     mapped; what it mapped before failing stays.
     */
    method MapUntil(addr: int, canMap: int -> bool) returns (ok: bool)
      requires Mapped() && Backed() && addr <= HEAP_END
      modifies this`mem, this`mappedEnd, this`pages, pmm
      ensures Mapped() && Backed()
      ensures ok <==> Extensible(old(|pmm.Free()|), canMap, old(mappedEnd), addr)
      ensures Extends(old(mappedEnd), addr, ok)
      ensures PAGE * (old(|pmm.Free()|) - |pmm.Free()|) == mappedEnd - old(mappedEnd)
      ensures forall a :: a in old(mem) ==> a in mem && mem[a] == old(mem)[a]
      ensures forall f: nat :: Owned(f) <==> old(Owned(f))
    {
      ghost var end, n := mappedEnd, 0;
      while mappedEnd < addr
        invariant Mapped() && Backed()
        invariant 0 <= n <= Missing(end, addr) && mappedEnd == end + PAGE * n && old(|pmm.Free()|) == |pmm.Free()| + n
        invariant forall i :: 0 <= i < n ==> CanMapPage(canMap, end, i)
        invariant forall a :: a in old(mem) ==> a in mem && mem[a] == old(mem)[a]
        invariant forall f: nat :: Owned(f) <==> old(Owned(f))
        decreases addr - mappedEnd
      {
        MissingIs(end, addr, n);
        assert CanMapPage(canMap, end, n) <==> canMap(mappedEnd);
        var mapped := MapNext(canMap);
        if !mapped {
          return false;
        }
        n := n + 1;
      }
      MissingIs(end, addr, n);
      return true;
    }

    /** One round of heap_map_until: a frame for the next page, given back when the page cannot be mapped. */
    method MapNext(canMap: int -> bool) returns (ok: bool)
      requires Mapped() && Backed() && mappedEnd < HEAP_END
      modifies this`mem, this`mappedEnd, this`pages, pmm
      ensures Mapped() && Backed()
      ensures ok <==> old(pmm.Free()) != {} && canMap(old(mappedEnd))
      ensures mappedEnd == old(mappedEnd) + (if ok then PAGE else 0)
      ensures old(|pmm.Free()|) == |pmm.Free()| + (if ok then 1 else 0)
      ensures forall a :: a in old(mem) ==> a in mem && mem[a] == old(mem)[a]
      ensures forall f: nat :: Owned(f) <==> old(Owned(f))
    {
      var phys := pmm.AllocPage();
      if phys == 0 {
        return false;
      }
      if !canMap(mappedEnd) {
        pmm.FreePage(phys);
        assert pmm.Free() == old(pmm.Free());
        return false;
      }
      MapPage(phys / PAGE);
      return true;
    }

    /** The mapping went from `end` to the page that covers `addr`, or stopped on the way. */
    ghost predicate Extends(end: int, addr: int, ok: bool)
      reads this
    {
      var last := end + PAGE * Missing(end, addr);
      if ok then mappedEnd == last else end <= mappedEnd < last
    }

    /** One page more, with whatever the frame held. */
    method MapPage(frame: nat)
      requires Mapped() && Backed() && mappedEnd < HEAP_END
      requires 0 < frame < pmm.totalPages && frame !in pmm.Free() && frame !in pages
      modifies this`mem, this`mappedEnd, this`pages
      ensures Mapped() && Backed() && mappedEnd == old(mappedEnd) + PAGE
      ensures forall a :: a in old(mem) ==> a in mem && mem[a] == old(mem)[a]
      ensures forall f: nat :: f in pages <==> f in old(pages) || f == frame
    {
      var content: int -> int := *;
      var end := mappedEnd;
      mem := mem + (map a | end <= a < end + PAGE && a % 8 == 0 :: content(a));
      pages := pages + [frame];
      mappedEnd := end + PAGE;
    }

    /** The second half of heap_shrink: unmap the pages above `keep` and free their frames. */
    method UnmapAbove(keep: int)
      requires Mapped() && Backed()
      requires exists n :: PageAligned(keep, n) && brk <= keep
      modifies this`mem, this`mappedEnd, this`pages, pmm
      ensures Mapped() && Backed()
      ensures mappedEnd == if old(mappedEnd) > keep then keep else old(mappedEnd)
      ensures forall a :: a in old(mem) && a < mappedEnd ==> a in mem && mem[a] == old(mem)[a]
      ensures forall f: nat :: Owned(f) <==> old(Owned(f))
    {
      while mappedEnd > keep
        invariant Mapped() && Backed()
        invariant mappedEnd <= old(mappedEnd) && (mappedEnd < keep ==> mappedEnd == old(mappedEnd))
        invariant forall a :: a in old(mem) && a < mappedEnd ==> a in mem && mem[a] == old(mem)[a]
        invariant forall f: nat :: Owned(f) <==> old(Owned(f))
        decreases mappedEnd - keep
      {
        UnmapPage();
      }
    }

    method UnmapPage()
      requires Mapped() && Backed() && brk + PAGE <= mappedEnd
      modifies this`mem, this`mappedEnd, this`pages, pmm
      ensures Mapped() && Backed() && mappedEnd == old(mappedEnd) - PAGE
      ensures forall a :: a in old(mem) && a < mappedEnd ==> a in mem && mem[a] == old(mem)[a]
      ensures forall f: nat :: Owned(f) <==> old(Owned(f))
    {
      var addr := mappedEnd - PAGE;
      var n := |pages| - 1;
      var frame := pages[n];
      assert pages == pages[..n] + [frame];
      pages := pages[..n];
      mem := map a | a in mem && a < addr :: mem[a];
      mappedEnd := addr;
      if frame * PAGE != 0 {
        pmm.FreePage(frame * PAGE);
      }
    }

    function Load(a: int): int
      requires a in mem
      reads this
    {
      mem[a]
    }

    /** Writes one word outside the payloads `live`, which still read as in `before`. */
    method Store(a: int, v: int, ghost live: set<Block>, ghost before: Memory)
      requires a in mem && Outside(live, a) && PayloadsKept(live, before, mem)
      modifies this`mem
      ensures mem == old(mem)[a := v] && mem.Keys == old(mem.Keys)
      ensures PayloadsKept(live, before, mem)
    {
      mem := mem[a := v];
    }

    /** Links `target` behind its predecessor in the free list, or at its head. */
    method Relink(prev: int, target: int, ghost p: int, ghost live: set<Block>, ghost before: Memory)
      requires p < |bs| && prev == PrevAddr(bs, p)
      requires p >= 0 ==> prev != 0 && prev + 8 in mem && Outside(live, prev + 8)
      requires PayloadsKept(live, before, mem)
      modifies this`mem, this`freeList
      ensures mem == LinkMem(bs, old(mem), p, target) && mem.Keys == old(mem.Keys)
      ensures freeList == LinkHead(old(freeList), p, target)
      ensures PayloadsKept(live, before, mem)
    {
      if prev != 0 {
        Store(prev + 8, target, live, before);
      } else {
        freeList := target;
      }
    }

    lemma {:induction false} HeaderMapped(i: nat)
      requires Valid() && i < |bs|
      ensures Writable(bs[i].addr, Live(bs)) && bs[i].addr > 0
      ensures Masked(mem[bs[i].addr]) == bs[i].size
      ensures mem[bs[i].addr] % 2 == if bs[i].free then 1 else 0
      ensures mem[bs[i].addr + 8] == if bs[i].free then NextAddr(bs, i + 1) else MAGIC
    {
      Bounds(bs, brk, i);
      MaskedSize(bs[i]);
      assert HeaderOk(bs, mem, i);
      BlockWords(bs, brk, i, bs[i].addr);
      BlockWords(bs, brk, i, bs[i].addr + 8);
    }

    /** Block `j` at `b` is free and fits; `prev` and `bnext` are its neighbours in the list. */
    ghost predicate Chosen(b: int, prev: int, bnext: int, need: int, j: nat, p: int)
      reads this
    {
      && j < |bs| && bs[j].free && bs[j].addr == b && bs[j].size >= need
      && PrevFree(bs, j, p) && prev == PrevAddr(bs, p) && bnext == NextAddr(bs, j + 1)
    }

    /** The four header words kmalloc may write, apart from the list link. */
    ghost predicate Writable(a: int, live: set<Block>)
      reads this
    {
      a in mem && a + 8 in mem && Outside(live, a) && Outside(live, a + 8)
    }

    method WriteHeader(a: int, first: int, second: int, ghost live: set<Block>, ghost before: Memory)
      requires Writable(a, live) && PayloadsKept(live, before, mem)
      modifies this`mem
      ensures mem == old(mem)[a := first][a + 8 := second] && mem.Keys == old(mem.Keys)
      ensures PayloadsKept(live, before, mem)
    {
      Store(a, first, live, before);
      Store(a + 8, second, live, before);
    }

    /** The fitting block with the rest split off as a free block in its place. */
    method HandOutSplit(b: int, prev: int, bnext: int, need: int, ghost j: nat, ghost p: int)
      requires Valid() && GoodNeed(need) && Chosen(b, prev, bnext, need, j, p)
      requires bs[j].size - need >= MIN_BLOCK
      modifies this`mem, this`freeList, this`bs
      ensures Valid() && bs == Carve(old(bs), j, need)
      ensures PayloadsKept(Live(old(bs)), old(mem), mem)
    {
      hide Good, Linked, Live, Outside, PayloadsKept, Carve, NextAddr, LinkMem;
      ghost var live, before := Live(bs), mem;
      HeaderMapped(j);
      if p >= 0 {
        HeaderMapped(p);
      }
      RestMapped(j, need);
      SplitStep(bs, brk, mem, freeList, j, p, need);
      PayloadsKeptRefl(live, mem);
      WriteSplit(b, prev, bnext, need, p, live, before);
      bs := Carve(bs, j, need);
    }

    /** The writes of the split, in their order. */
    method WriteSplit(b: int, prev: int, bnext: int, need: int, ghost p: int, ghost live: set<Block>,
                      ghost before: Memory)
      requires b in mem && Writable(b, live) && Writable(b + need, live) && PayloadsKept(live, before, mem)
      requires -1 <= p < |bs| && prev == PrevAddr(bs, p) && (p >= 0 ==> Writable(bs[p].addr, live) && prev != 0)
      modifies this`mem, this`freeList
      ensures mem.Keys == old(mem.Keys) && PayloadsKept(live, before, mem)
      ensures mem == LinkMem(bs, old(mem)[b + need := Masked(old(mem)[b]) - need + 1][b + need + 8 := bnext], p,
                             b + need)[b := need][b + 8 := MAGIC]
      ensures freeList == LinkHead(old(freeList), p, b + need)
    {
      hide Live, Outside, PayloadsKept, LinkMem, LinkHead;
      var blockSize := Masked(Load(b));
      var split := b + need;
      WriteHeader(split, blockSize - need + 1, bnext, live, before);
      Relink(prev, split, p, live, before);
      WriteHeader(b, need, MAGIC, live, before);
    }

    lemma {:induction false} RestMapped(j: nat, need: int)
      requires Valid() && GoodNeed(need) && j < |bs| && bs[j].free && bs[j].size - need >= MIN_BLOCK
      ensures Writable(bs[j].addr + need, Live(bs))
    {
      Bounds(bs, brk, j);
      HeaderWords(bs[j].addr + need, mappedEnd);
      BlockWords(bs, brk, j, bs[j].addr + need);
      BlockWords(bs, brk, j, bs[j].addr + need + 8);
    }

    /** The fitting block as a whole. */
    method HandOutWhole(b: int, prev: int, bnext: int, need: int, ghost j: nat, ghost p: int)
      requires Valid() && GoodNeed(need) && Chosen(b, prev, bnext, need, j, p)
      requires bs[j].size - need < MIN_BLOCK
      modifies this`mem, this`freeList, this`bs
      ensures Valid() && bs == Carve(old(bs), j, need)
      ensures PayloadsKept(Live(old(bs)), old(mem), mem)
    {
      hide Good, Linked, Live, Outside, PayloadsKept, Carve, NextAddr, LinkMem;
      ghost var live, before := Live(bs), mem;
      HeaderMapped(j);
      if p >= 0 {
        HeaderMapped(p);
      }
      var blockSize := Masked(Load(b));
      TakeStep(bs, brk, mem, freeList, j, p, need);
      Relink(prev, bnext, p, live, before);
      WriteHeader(b, blockSize, MAGIC, live, before);
      bs := Carve(bs, j, need);
    }

    /** A node of the free list passes every test the walks make. */
    lemma {:induction false} NodeSane(k: nat)
      requires Laid(bs, brk)
      requires k <= |bs| && FirstFree(bs, k) < |bs|
      ensures var j := FirstFree(bs, k);
        && HEAP_START <= bs[j].addr && bs[j].addr + HEADER <= brk && bs[j].addr % 16 == 0
        && MIN_BLOCK <= bs[j].size <= brk - bs[j].addr && bs[j].size % 16 == 0
        && LinkSane(bs[j].addr, NextAddr(bs, j + 1))
    {
      var j := FirstFree(bs, k);
      Bounds(bs, brk, j);
      var n := FirstFree(bs, j + 1);
      if n < |bs| {
        Bounds(bs, brk, n);
        Ordered(bs, brk, j, n);
      }
    }

    predicate LinkSane(b: int, next: int)
      reads this
    {
      next == 0 || (HEAP_START <= next <= brk && next % 16 == 0 && next > b)
    }

    /** Reads a list node; the sanity tests of the walks all pass on it. */
    method ReadNode(b: int, ghost k: nat) returns (sane: bool, size: int, next: int)
      requires Laid(bs, brk) && Linked(bs, mem, freeList)
      requires k <= |bs| && b == NextAddr(bs, k) && b != 0
      ensures sane
      ensures var j := FirstFree(bs, k);
        j < |bs| && b == bs[j].addr && size == bs[j].size && next == NextAddr(bs, j + 1)
    {
      ghost var j := FirstFree(bs, k);
      assert HeaderOk(bs, mem, j);
      MaskedSize(bs[j]);
      NodeSane(k);
      var raw := Load(b);
      size, next := Masked(raw), Load(b + 8);
      sane :=
        && HEAP_START <= b && b + HEADER <= brk && b % 16 == 0
        && raw % 2 == 1
        && MIN_BLOCK <= size && size % 16 == 0 && size <= brk - b
        && LinkSane(b, next);
    }

    lemma {:induction false} WalkEnds(k: nat, steps: nat)
      requires Laid(bs, brk) && WalkedTo(bs, brk, k, steps) && (NextAddr(bs, k) == 0 || steps >= MAX_WALK)
      ensures FirstFree(bs, k) == |bs|
    {
      if FirstFree(bs, k) < |bs| {
        NodeSane(k);
        WalkStaysBelowLimit(bs, brk, k, steps);
      }
    }

    /** The first-fit walk of kmalloc. */
    method FindFit(need: int) returns (b: int, prev: int, bnext: int, ghost j: nat, ghost p: int)
      requires Valid() && GoodNeed(need)
      ensures b == 0 ==> !Fits(bs, need)
      ensures b != 0 ==> Chosen(b, prev, bnext, need, j, p) && j == FirstFit(bs, need, 0)
    {
      hide Laid, Linked, Mapped, Backed, WalkedTo;
      ghost var k: nat := 0;
      prev, b, bnext, j, p := 0, freeList, 0, 0, -1;
      HeadIs();
      var steps := 0;
      while b != 0 && steps < MAX_WALK
        invariant k <= |bs| && WalkedTo(bs, brk, k, steps)
        invariant b == NextAddr(bs, k) && prev == PrevAddr(bs, k - 1) && (k > 0 ==> bs[k - 1].free)
        invariant forall i :: 0 <= i < k ==> !(bs[i].free && bs[i].size >= need)
        decreases MAX_WALK - steps
      {
        j, p := FirstFree(bs, k), k - 1;
        var sane, size, next := ReadNode(b, k);
        if !sane {
          break;
        }
        if size >= need {
          bnext := next;
          return;
        }
        WalkStaysBelowLimit(bs, brk, k, steps);
        prev, b, k := b, next, j + 1;
        steps := steps + 1;
      }
      WalkEnds(k, steps);
      b := 0;
    }

    lemma {:induction false} BreakInRange()
      requires Valid()
      ensures HEAP_START <= brk <= HEAP_END && brk % 16 == 0
    {
      BreakAligned(bs, brk);
    }

    lemma {:induction false} HeadIs()
      requires Valid()
      ensures freeList == NextAddr(bs, 0) && WalkedTo(bs, brk, 0, 0)
    {
    }

    /** kmalloc. */
    method Kmalloc(size: nat, canMap: int -> bool) returns (ptr: int)
      requires Valid() && size < U32
      modifies this, pmm
      ensures Valid()
      ensures ptr != 0 ==>
        && size > 0
        && bs == Alloc(old(bs), old(brk), Need(size))
        && brk == AllocBrk(old(bs), old(brk), Need(size))
        && ptr == AllocAddr(old(bs), old(brk), Need(size)) + HEADER
      ensures ptr == 0 ==> bs == old(bs) && brk == old(brk)
      ensures ptr == 0 <==> size == 0 || (!Fits(old(bs), Need(size)) && !old(Growable(Need(size), canMap)))
      ensures if size == 0 || Fits(old(bs), Need(size)) || old(brk) + Need(size) > HEAP_END
        then mappedEnd == old(mappedEnd)
        else Extends(old(mappedEnd), old(brk) + Need(size), ptr != 0)
      ensures PAGE * (old(|pmm.Free()|) - |pmm.Free()|) == mappedEnd - old(mappedEnd)
      ensures PayloadsKept(Live(old(bs)), old(mem), mem)
      ensures forall f: nat :: Owned(f) <==> old(Owned(f))
    {
      hide Good, Linked, Live, PayloadsKept, Carve;
      PayloadsKeptRefl(Live(bs), mem);
      if size == 0 {
        return 0;
      }
      PayloadHoldsIff(size);
      var need := Need(size);
      var b, prev, bnext, j, p := FindFit(need);
      if b != 0 {
        HeaderMapped(j);
        if Masked(Load(b)) - need >= MIN_BLOCK {
          HandOutSplit(b, prev, bnext, need, j, p);
        } else {
          HandOutWhole(b, prev, bnext, need, j, p);
        }
        return b + HEADER;
      }
      ptr := Grow(need, canMap);
    }

    /** The break can rise by `need`: below the limit, with frames for the missing pages, all of them mappable. */
    ghost predicate Growable(need: int, canMap: int -> bool)
      requires pmm.Counted()
      reads this, pmm
    {
      brk + need <= HEAP_END && Extensible(|pmm.Free()|, canMap, mappedEnd, brk + need)
    }

    /** kmalloc when no free block fits: a new block at the break. */
    method Grow(need: int, canMap: int -> bool) returns (ptr: int)
      requires Valid() && GoodNeed(need) && need < 2 * U32
      modifies this, pmm
      ensures Valid()
      ensures ptr != 0 ==>
        bs == old(bs) + [Block(old(brk), need, false)] && brk == old(brk) + need && ptr == old(brk) + HEADER
      ensures ptr == 0 ==> bs == old(bs) && brk == old(brk)
      ensures ptr == 0 <==> !old(Growable(need, canMap))
      ensures if old(brk) + need > HEAP_END then mappedEnd == old(mappedEnd)
        else Extends(old(mappedEnd), old(brk) + need, ptr != 0)
      ensures PAGE * (old(|pmm.Free()|) - |pmm.Free()|) == mappedEnd - old(mappedEnd)
      ensures PayloadsKept(Live(old(bs)), old(mem), mem)
      ensures forall f: nat :: Owned(f) <==> old(Owned(f))
    {
      hide Good, Linked, Live, Outside, PayloadsKept;
      var addr := brk;
      BreakInRange();
      PayloadsKeptRefl(Live(bs), mem);
      var newBrk := (addr + need) % U64;
      if newBrk < addr || newBrk > HEAP_END {
        return 0;
      }
      ghost var live, before := Live(bs), mem;
      var ok := MapUntil(newBrk, canMap);
      StillLinked(bs, before, mem, freeList);
      if !ok {
        return 0;
      }
      PlaceAtBreak(need, live, before);
      return addr + HEADER;
    }

    method PlaceAtBreak(need: int, ghost live: set<Block>, ghost before: Memory)
      requires Valid() && GoodNeed(need) && brk + need <= mappedEnd
      requires live == Live(bs) && PayloadsKept(live, before, mem)
      modifies this`mem, this`brk, this`bs
      ensures Valid() && bs == old(bs) + [Block(old(brk), need, false)] && brk == old(brk) + need
      ensures PayloadsKept(live, before, mem)
    {
      hide Good, Linked, Live, Outside, PayloadsKept;
      var addr := brk;
      BreakInRange();
      HeaderWords(addr, mappedEnd);
      GrowStep(bs, brk, mem, freeList, need);
      brk := addr + need;
      WriteHeader(addr, need, MAGIC, live, before);
      bs := bs + [Block(addr, need, false)];
    }

    /** The part of the invariant that holds between the steps of kfree. */
    ghost predicate Chained()
      reads this
    {
      Tiled(bs, brk) && Shaped(bs) && Linked(bs, mem, freeList)
    }

    /** heap_coalesce: joins the free block `b` with a free block right behind it. */
    method Coalesce(b: int, ghost i: nat, ghost live: set<Block>, ghost before: Memory)
      requires Chained() && i < |bs| && bs[i].free && bs[i].addr == b
      requires live == Live(bs) && PayloadsKept(live, before, mem)
      modifies this`mem, this`bs
      ensures Chained() && bs == Merge(old(bs), i) && Live(bs) == live
      ensures mem.Keys == old(mem.Keys) && PayloadsKept(live, before, mem)
    {
      hide Tiled, Shaped, Linked, Live, PayloadsKept, Outside;
      CoalesceStep(bs, brk, mem, freeList, i);
      var body := Masked(Load(b));
      var next := b + body;
      if next != Load(b + 8) {
        return;
      }
      if next + HEADER > brk || next % 16 != 0 {
        return;
      }
      var nsize := Load(next);
      if nsize % 2 == 0 || !SizeSane(nsize, next) {
        return;
      }
      var after := Load(next + 8);
      WriteHeader(b, body + Masked(nsize) + 1, after, live, before);
      bs := Merge(bs, i);
    }

    predicate SizeSane(raw: int, baddr: int)
      reads this
    {
      var body := Masked(raw);
      body >= MIN_BLOCK && body % 16 == 0 && body <= brk - baddr
    }

    /** The walk of kfree: the neighbours in the list of the used block `k`. */
    method FindPlace(baddr: int, ghost k: nat) returns (prev: int, cur: int, ghost p: int)
      requires Valid() && k < |bs| && !bs[k].free && bs[k].addr == baddr
      ensures PrevFree(bs, k, p) && prev == PrevAddr(bs, p) && cur == NextAddr(bs, k + 1)
    {
      hide Laid, Linked, Mapped, Backed, WalkedTo, Masked, SizeSane, FirstFree;
      ghost var i: nat := 0;
      prev, cur, p := 0, freeList, -1;
      HeadIs();
      var steps := 0;
      while cur != 0 && steps < MAX_WALK
        invariant i <= k && WalkedTo(bs, brk, i, steps)
        invariant cur == NextAddr(bs, i) && prev == PrevAddr(bs, i - 1) && (i > 0 ==> bs[i - 1].free)
        decreases MAX_WALK - steps
      {
        p := i - 1;
        ghost var j := FirstFree(bs, i);
        var _, _, next := ReadNode(cur, i);
        WhichSide(j, k);
        if cur < HEAP_START || cur + HEADER > brk || cur % 16 != 0 {
          NodeSane(i);
          assert false;
          break;
        }
        if cur == baddr {
          assert false;
          return;
        }
        if cur > baddr {
          FirstFreeIs(bs, k + 1, j);
          return;
        }
        WalkStaysBelowLimit(bs, brk, i, steps);
        prev, cur, i := cur, next, j + 1;
        steps := steps + 1;
      }
      WalkEnds(i, steps);
      p := i - 1;
      FirstFreeIs(bs, k + 1, |bs|);
    }

    lemma {:induction false} WhichSide(j: nat, k: nat)
      requires Laid(bs, brk) && j < |bs| && k < |bs| && bs[j].free && !bs[k].free
      ensures bs[j].addr != bs[k].addr
      ensures bs[j].addr > bs[k].addr <==> j > k
    {
      if j < k {
        Ordered(bs, brk, j, k);
      } else {
        Ordered(bs, brk, k, j);
      }
    }

    /** The inner walk of heap_shrink: a free block that ends at the break, if there is one. */
    method FindTail() returns (tail: int, prev: int, ghost p: int)
      requires Laid(bs, brk) && Linked(bs, mem, freeList)
      ensures tail == 0 <==> LastUsed(bs)
      ensures tail != 0 ==> tail == bs[|bs| - 1].addr && PrevFree(bs, |bs| - 1, p) && prev == PrevAddr(bs, p)
    {
      var cur := freeList;
      ghost var k: nat := 0;
      tail, prev, p := 0, 0, -1;
      StartOfWalk();
      hide Laid, Linked, WalkedTo;
      var steps := 0;
      while cur != 0 && steps < MAX_WALK
        invariant k <= |bs| && WalkedTo(bs, brk, k, steps)
        invariant cur == NextAddr(bs, k) && prev == PrevAddr(bs, k - 1) && (k > 0 ==> bs[k - 1].free)
        invariant k > 0 ==> k < |bs|
        decreases MAX_WALK - steps
      {
        ghost var j := FirstFree(bs, k);
        var sane, size, next := ReadNode(cur, k);
        EndsAtBreak(j);
        if !sane {
          break;
        }
        if cur + size == brk {
          tail, p := cur, k - 1;
          return;
        }
        WalkStaysBelowLimit(bs, brk, k, steps);
        prev, cur, k := cur, next, j + 1;
        steps := steps + 1;
      }
      WalkEnds(k, steps);
    }

    lemma {:induction false} StartOfWalk()
      requires Laid(bs, brk) && Linked(bs, mem, freeList)
      ensures WalkedTo(bs, brk, 0, 0) && freeList == NextAddr(bs, 0)
    {
    }

    lemma {:induction false} EndsAtBreak(j: nat)
      requires Laid(bs, brk) && j < |bs|
      ensures bs[j].End() == brk <==> j == |bs| - 1
      ensures bs[j].addr > 0
    {
      Bounds(bs, brk, j);
      assert Meets(bs, brk, j);
      if j < |bs| - 1 {
        Ordered(bs, brk, j + 1, |bs|);
      }
    }

    /** heap_shrink: gives free blocks at the end back to the break, then pages to the frames. */
    method Shrink()
      requires Laid(bs, brk) && Linked(bs, mem, freeList) && Mapped() && Backed()
      modifies this, pmm
      ensures Valid() && bs == Trim(old(bs)) && brk == TrimBrk(old(bs), old(brk))
      ensures mappedEnd == Lower(old(mappedEnd), Kept(brk))
      ensures PayloadsKept(Live(old(bs)), old(mem), mem)
      ensures forall f: nat :: Owned(f) <==> old(Owned(f))
    {
      ghost var live, before := Live(bs), mem;
      LowerBreak(live, before);
      var keep := (brk + PAGE - 1) / PAGE * PAGE;
      if keep < FLOOR {
        keep := FLOOR;
      }
      KeepAligned(brk, keep);
      label lowered:
      UnmapAbove(keep);
      LinkedBelow(bs, brk, old@lowered(mem), mem, freeList, mappedEnd);
      KeptBelow(live, before, old@lowered(mem), mem, bs, brk, mappedEnd);
    }

    method LowerBreak(ghost live: set<Block>, ghost before: Memory)
      requires Laid(bs, brk) && Linked(bs, mem, freeList) && Mapped()
      requires live == Live(bs) && PayloadsKept(live, before, mem)
      modifies this`mem, this`freeList, this`brk, this`bs
      ensures Good(bs, brk) && Linked(bs, mem, freeList) && Mapped()
      ensures bs == Trim(old(bs)) && brk == TrimBrk(old(bs), old(brk))
      ensures live == Live(bs) && PayloadsKept(live, before, mem)
    {
      hide Laid, Linked, PayloadsKept, Live, LinkMem, LinkHead;
      while true
        invariant Laid(bs, brk) && Linked(bs, mem, freeList) && Mapped()
        invariant Trim(bs) == Trim(old(bs)) && TrimBrk(bs, brk) == TrimBrk(old(bs), old(brk))
        invariant live == Live(bs) && PayloadsKept(live, before, mem)
        decreases |bs|
      {
        var tail, prev, p := FindTail();
        if tail == 0 {
          return;
        }
        DropStep(bs, brk, mem, freeList, p);
        var next := Load(tail + 8);
        brk := tail;
        Relink(prev, next, p, live, before);
        bs := bs[..|bs| - 1];
      }
    }

    /** The payload address names a block that passes all of kfree's tests. */
    predicate LooksLive(addr: int)
      requires Mapped()
      reads this
    {
      && HEAP_START + HEADER <= addr < brk && addr % 16 == 0
      && addr - HEADER in mem && addr - 8 in mem
      && mem[addr - HEADER] % 2 == 0 && mem[addr - 8] == MAGIC
      && SizeSane(mem[addr - HEADER], addr - HEADER)
    }

    ghost predicate LiveAt(addr: int, k: nat)
      reads this
    {
      k < |bs| && !bs[k].free && bs[k].addr + HEADER == addr
    }

    /**
     kfree.  A pointer that is not an outstanding payload is ignored, provided no payload was
     filled with bytes that imitate a header just below it.
     */
    method Kfree(addr: int)
      requires Valid()
      requires LooksLive(addr) ==> exists k: nat :: LiveAt(addr, k)
      modifies this, pmm
      ensures Valid()
      ensures forall k: nat :: old(LiveAt(addr, k)) ==>
        && bs == Release(old(bs), k) && brk == ReleaseBrk(old(bs), old(brk), k)
        && mappedEnd == Lower(old(mappedEnd), Kept(brk))
        && PayloadsKept(Live(old(bs)) - {old(bs)[k]}, old(mem), mem)
      ensures (forall k: nat :: !old(LiveAt(addr, k))) ==>
        bs == old(bs) && brk == old(brk) && mem == old(mem) && freeList == old(freeList) && mappedEnd == old(mappedEnd)
      ensures forall f: nat :: Owned(f) <==> old(Owned(f))
    {
      hide Good, Linked, PayloadsKept, Live;
      OnlyLive(addr);
      ghost var k: nat := if k: nat :| LiveAt(addr, k) then k else 0;
      var size := CheckPointer(addr);
      if size >= 0 {
        assert LiveAt(addr, k);
        FreeBlock(addr - HEADER, size, k);
      }
    }

    /** The tests of kfree: the size in the header, or -1 for a pointer to be ignored. */
    method CheckPointer(addr: int) returns (size: int)
      requires Valid()
      ensures if LooksLive(addr) then addr - HEADER in mem && size == Masked(mem[addr - HEADER]) >= 0 else size == -1
    {
      hide Good, Linked;
      if addr == 0 || addr < HEAP_START + HEADER || addr >= brk || addr % 16 != 0 {
        return -1;
      }
      var b := addr - HEADER;
      HeaderWords(b, mappedEnd);
      if b < HEAP_START || b + HEADER > brk || b % 16 != 0 {
        return -1;
      }
      var raw := Load(b);
      if raw % 2 == 1 || Load(b + 8) != MAGIC || !SizeSane(raw, b) {
        return -1;
      }
      return Masked(raw);
    }

    lemma {:induction false} OnlyLive(addr: int)
      requires Valid()
      ensures forall k: nat :: LiveAt(addr, k) ==> LooksLive(addr) && Masked(mem[addr - HEADER]) == bs[k].size
      ensures forall j: nat, k: nat :: LiveAt(addr, j) && LiveAt(addr, k) ==> j == k
    {
      hide Good, Linked, Masked, SizeSane;
      forall k: nat | LiveAt(addr, k)
        ensures LooksLive(addr) && Masked(mem[addr - HEADER]) == bs[k].size
        ensures forall j: nat :: LiveAt(addr, j) ==> j == k
      {
        LiveLooksLive(addr, k);
        OneLive(addr, k);
      }
    }

    lemma {:induction false} LiveLooksLive(addr: int, k: nat)
      requires Valid() && LiveAt(addr, k)
      ensures LooksLive(addr) && Masked(mem[addr - HEADER]) == bs[k].size
    {
      Bounds(bs, brk, k);
      HeaderMapped(k);
    }

    /** A second kfree of the same payload meets the free bit and is ignored. */
    lemma {:induction false} FreedIsRejected(k: nat)
      requires Valid() && k < |bs| && bs[k].free
      ensures !LooksLive(bs[k].addr + HEADER)
    {
      HeaderMapped(k);
    }

    lemma {:induction false} OneLive(addr: int, k: nat)
      requires Valid() && LiveAt(addr, k)
      ensures forall j: nat :: LiveAt(addr, j) ==> j == k
    {
      forall j: nat | LiveAt(addr, j)
        ensures j == k
      {
        Distinct(bs, brk, j, k);
      }
    }

    /** kfree on an outstanding payload. */
    method FreeBlock(b: int, size: int, ghost k: nat)
      requires Valid() && k < |bs| && !bs[k].free && bs[k].addr == b && bs[k].size == size
      modifies this, pmm
      ensures Valid() && bs == Release(old(bs), k) && brk == ReleaseBrk(old(bs), old(brk), k)
      ensures mappedEnd == Lower(old(mappedEnd), Kept(brk))
      ensures PayloadsKept(Live(old(bs)) - {old(bs)[k]}, old(mem), mem)
      ensures forall f: nat :: Owned(f) <==> old(Owned(f))
    {
      hide Laid, Linked, Live, Outside, PayloadsKept, Tiled, Shaped, LinkMem, Merge, Trim, TrimBrk;
      ghost var live, before := Live(bs) - {bs[k]}, mem;
      var prev, cur, p := FindPlace(b, k);
      InsertStep(bs, brk, mem, freeList, k, p);
      WriteHeader(b, size + 1, cur, live, before);
      Relink(prev, b, p, live, before);
      bs := SetFree(bs, k);
      Coalesce(b, k, live, before);
      LeftNeighbour(old(bs), brk, k, p, bs, mem, freeList);
      if prev != 0 && prev + Masked(Load(prev)) == b {
        Coalesce(prev, k - 1, live, before);
      }
      JoinedLaid(old(bs), brk, k);
      ghost var mid := mem;
      Shrink();
      KeptTrans(live, before, mid, mem);
    }
  }

  lemma {:induction false} StillLinked(bs: seq<Block>, mem: Memory, mem': Memory, head: int)
    requires Linked(bs, mem, head)
    requires forall a :: a in mem ==> a in mem' && mem'[a] == mem[a]
    ensures Linked(bs, mem', head) && PayloadsKept(Live(bs), mem, mem')
  {
    forall i | 0 <= i < |bs|
      ensures SameHeader(bs[i], mem, mem')
    {
      assert HeaderOk(bs, mem, i);
    }
    LinkedFrame(bs, mem, mem', head);
  }

  lemma {:induction false} GrowStep(bs: seq<Block>, brk: int, mem: Memory, head: int, need: int)
    requires Good(bs, brk) && Linked(bs, mem, head) && GoodNeed(need) && brk + need <= HEAP_END
    requires brk in mem && brk + 8 in mem
    ensures Outside(Live(bs), brk) && Outside(Live(bs), brk + 8)
    ensures Good(bs + [Block(brk, need, false)], brk + need)
    ensures Linked(bs + [Block(brk, need, false)], mem[brk := need][brk + 8 := MAGIC], head)
  {
    BreakOutside(bs, brk);
    AppendGood(bs, brk, need);
    AppendLinked(bs, brk, mem, head, need);
  }

  lemma {:induction false} BreakOutside(bs: seq<Block>, brk: int)
    requires Tiled(bs, brk) && Shaped(bs)
    ensures brk % 16 == 0 && Outside(Live(bs), brk) && Outside(Live(bs), brk + 8)
  {
    BreakAligned(bs, brk);
    forall b | b in Live(bs)
      ensures b.End() <= brk
    {
      var i :| 0 <= i < |bs| && bs[i] == b;
      Bounds(bs, brk, i);
    }
  }

  lemma {:induction false} KeptTrans(live: set<Block>, mem: Memory, mid: Memory, mem': Memory)
    requires PayloadsKept(live, mem, mid) && PayloadsKept(live, mid, mem')
    ensures PayloadsKept(live, mem, mem')
  {
  }

  lemma {:induction false} PayloadsKeptRefl(live: set<Block>, mem: Memory)
    ensures PayloadsKept(live, mem, mem)
  {
  }

  /** What heap_coalesce sees: the link equals the adjacent address just when the two join. */
  lemma {:induction false} CoalesceStep(bs: seq<Block>, brk: int, mem: Memory, head: int, i: nat)
    requires Tiled(bs, brk) && Shaped(bs) && Linked(bs, mem, head)
    requires i < |bs| && bs[i].free
    ensures bs[i].addr in mem && bs[i].addr + 8 in mem
    ensures Outside(Live(bs), bs[i].addr) && Outside(Live(bs), bs[i].addr + 8)
    ensures Masked(mem[bs[i].addr]) == bs[i].size && mem[bs[i].addr + 8] == NextAddr(bs, i + 1)
    ensures NextAddr(bs, i + 1) == bs[i].End() <==> Mergeable(bs, i)
    ensures Mergeable(bs, i) ==>
      && var next := bs[i + 1];
      && next.addr == bs[i].End() && next.addr in mem && next.addr + 8 in mem
      && next.addr + HEADER <= brk && next.addr % 16 == 0 && mem[next.addr] % 2 == 1
      && Masked(mem[next.addr]) == next.size && MIN_BLOCK <= next.size <= brk - next.addr && next.size % 16 == 0
      && mem[next.addr + 8] == NextAddr(bs, i + 2)
    ensures Tiled(Merge(bs, i), brk) && Shaped(Merge(bs, i)) && Live(Merge(bs, i)) == Live(bs)
    ensures Mergeable(bs, i) ==>
      Linked(Merge(bs, i),
             mem[bs[i].addr := bs[i].size + bs[i + 1].size + 1][bs[i].addr + 8 := NextAddr(bs, i + 2)],
             head)
  {
    assert HeaderOk(bs, mem, i) && Meets(bs, brk, i);
    Bounds(bs, brk, i);
    MaskedSize(bs[i]);
    BlockWords(bs, brk, i, bs[i].addr);
    BlockWords(bs, brk, i, bs[i].addr + 8);
    MergeShape(bs, brk, i);
    MergeLive(bs, i);
    var n := FirstFree(bs, i + 1);
    if n < |bs| && n > i + 1 {
      Ordered(bs, brk, i + 1, n);
    }
    if Mergeable(bs, i) {
      assert HeaderOk(bs, mem, i + 1);
      MaskedSize(bs[i + 1]);
      Bounds(bs, brk, i + 1);
      MergeLinked(bs, brk, mem, head, i);
    }
  }

  lemma {:induction false} DropStep(bs: seq<Block>, brk: int, mem: Memory, head: int, p: int)
    requires Laid(bs, brk) && Linked(bs, mem, head)
    requires |bs| > 0 && bs[|bs| - 1].free && PrevFree(bs, |bs| - 1, p)
    ensures var tail := bs[|bs| - 1].addr;
      && HEAP_START <= tail <= brk && tail + 8 in mem && mem[tail + 8] == 0
      && Laid(bs[..|bs| - 1], tail) && Live(bs[..|bs| - 1]) == Live(bs)
    ensures p >= 0 ==>
      bs[p].addr != 0 && bs[p].addr + 8 in mem && Outside(Live(bs), bs[p].addr + 8)
    ensures Linked(bs[..|bs| - 1], LinkMem(bs, mem, p, 0), LinkHead(head, p, 0))
  {
    var n := |bs| - 1;
    Bounds(bs, brk, n);
    assert HeaderOk(bs, mem, n);
    LaidPrefix(bs, brk);
    DropLinked(bs, brk, mem, head, p);
    assert bs == bs[..n] + [bs[n]];
    if p >= 0 {
      assert HeaderOk(bs, mem, p);
      Bounds(bs, brk, p);
      BlockWords(bs, brk, p, bs[p].addr + 8);
    }
  }

  lemma {:induction false} KeepAligned(brk: int, keep: int)
    requires HEAP_START <= brk
    requires var covered := (brk + PAGE - 1) / PAGE * PAGE; keep == if covered < FLOOR then FLOOR else covered
    ensures keep >= brk && keep == Kept(brk)
    ensures exists n :: PageAligned(keep, n)
  {
    if keep == FLOOR {
      assert PageAligned(keep, 4);
    } else {
      assert PageAligned(keep, (brk + PAGE - 1) / PAGE - HEAP_START / PAGE);
    }
  }

  /** Unmapping above the break touches no header and no payload. */
  lemma {:induction false} LinkedBelow(bs: seq<Block>, brk: int, mem: Memory, mem': Memory, head: int, end: int)
    requires Tiled(bs, brk) && Shaped(bs) && Linked(bs, mem, head) && brk <= end
    requires forall a :: a in mem && a < end ==> a in mem' && mem'[a] == mem[a]
    ensures Linked(bs, mem', head)
  {
    forall i | 0 <= i < |bs|
      ensures SameHeader(bs[i], mem, mem')
    {
      assert HeaderOk(bs, mem, i);
      Bounds(bs, brk, i);
    }
    LinkedFrame(bs, mem, mem', head);
  }

  lemma {:induction false} KeptBelow(live: set<Block>, before: Memory, mem: Memory, mem': Memory, bs: seq<Block>,
                                     brk: int, end: int)
    requires Tiled(bs, brk) && Shaped(bs) && live == Live(bs) && brk <= end
    requires PayloadsKept(live, before, mem)
    requires forall a :: a in mem && a < end ==> a in mem' && mem'[a] == mem[a]
    ensures PayloadsKept(live, before, mem')
  {
    forall b | b in live
      ensures b.End() <= end
    {
      var i :| 0 <= i < |bs| && bs[i] == b;
      Bounds(bs, brk, i);
    }
  }

  lemma {:induction false} InsertStep(bs: seq<Block>, brk: int, mem: Memory, head: int, k: nat, p: int)
    requires Good(bs, brk) && Linked(bs, mem, head)
    requires k < |bs| && !bs[k].free && PrevFree(bs, k, p)
    ensures var live := Live(bs) - {bs[k]};
      && Live(SetFree(bs, k)) == live
      && bs[k].addr in mem && bs[k].addr + 8 in mem
      && Outside(live, bs[k].addr) && Outside(live, bs[k].addr + 8)
      && (p >= 0 ==> bs[p].addr != 0 && bs[p].addr + 8 in mem && Outside(live, bs[p].addr + 8))
      && PayloadsKept(live, mem, mem)
    ensures Tiled(SetFree(bs, k), brk) && Shaped(SetFree(bs, k))
    ensures var m1 := mem[bs[k].addr := bs[k].size + 1][bs[k].addr + 8 := NextAddr(bs, k + 1)];
      Linked(SetFree(bs, k), LinkMem(bs, m1, p, bs[k].addr), LinkHead(head, p, bs[k].addr))
  {
    SetFreeLive(bs, brk, k);
    SetFreeShape(bs, brk, k);
    InsertLinked(bs, brk, mem, head, k, p);
    assert HeaderOk(bs, mem, k);
    BlockWords(bs, brk, k, bs[k].addr);
    BlockWords(bs, brk, k, bs[k].addr + 8);
    if p >= 0 {
      assert HeaderOk(bs, mem, p);
      Bounds(bs, brk, p);
      BlockWords(bs, brk, p, bs[p].addr + 8);
    }
  }

  /** After the right join: the block before `k` touches it just when it is free. */
  lemma {:induction false} LeftNeighbour(bs: seq<Block>, brk: int, k: nat, p: int, r: seq<Block>, mem: Memory,
                                         head: int)
    requires Good(bs, brk) && k < |bs| && !bs[k].free && PrevFree(bs, k, p)
    requires r == Merge(SetFree(bs, k), k) && Shaped(r) && Linked(r, mem, head)
    ensures p < 0 ==> Joined(bs, k) == r
    ensures p >= 0 ==>
      && p < |r| && r[p] == bs[p] && r[p].addr in mem && r[p].addr > 0
      && Masked(mem[r[p].addr]) == bs[p].size
      && (bs[p].End() == bs[k].addr <==> p == k - 1)
      && (p != k - 1 ==> Joined(bs, k) == r)
  {
    RightJoin(bs, k);
    assert k > 0 ==> r[k - 1] == r[..k][k - 1] == bs[k - 1];
    if p >= 0 {
      assert r[p] == r[..k][p] == bs[p];
      assert HeaderOk(r, mem, p) && Meets(bs, brk, p);
      MaskedSize(r[p]);
      Bounds(bs, brk, p);
      if p < k - 1 {
        Ordered(bs, brk, p + 1, k);
      }
    }
  }

  lemma {:induction false} JoinedLaid(bs: seq<Block>, brk: int, k: nat)
    requires Good(bs, brk) && k < |bs| && !bs[k].free
    ensures Laid(Joined(bs, k), brk)
  {
    JoinedGood(bs, brk, k);
  }
}
