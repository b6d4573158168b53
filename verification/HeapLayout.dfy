/**
 The kernel heap as a list of blocks that tile [HEAP_START, brk): what kmalloc and kfree do
 to the layout, without the in-memory headers.  The amd64 constants are used throughout.
 */
module HeapLayout {

  const HEAP_START := 0xFFFF_FFFF_9000_0000
  const HEAP_END := 0xFFFF_FFFF_A000_0000
  const HEADER := 16
  const MIN_BLOCK := 32

  datatype Block = Block(addr: int, size: int, free: bool) {
    function End(): int {
      addr + size
    }
  }

  /** Where block `i` starts; the end of the last block is the break. */
  ghost function At(bs: seq<Block>, brk: int, i: nat): int
    requires i <= |bs|
  {
    if i < |bs| then bs[i].addr else brk
  }

  /** Block `i` ends where the next one starts. */
  ghost predicate Meets(bs: seq<Block>, brk: int, i: int) {
    0 <= i < |bs| && bs[i].End() == At(bs, brk, i + 1)
  }

  ghost predicate Tiled(bs: seq<Block>, brk: int) {
    && At(bs, brk, 0) == HEAP_START
    && forall i :: 0 <= i < |bs| ==> Meets(bs, brk, i)
  }

  ghost predicate WellSized(b: Block) {
    b.size >= MIN_BLOCK && b.size % 16 == 0 && b.addr % 16 == 0
  }

  ghost predicate Shaped(bs: seq<Block>) {
    forall i :: 0 <= i < |bs| ==> WellSized(bs[i])
  }

  ghost predicate BothFree(bs: seq<Block>, i: int) {
    0 <= i < |bs| - 1 && bs[i].free && bs[i + 1].free
  }

  ghost predicate NoAdjacentFree(bs: seq<Block>) {
    forall i :: !BothFree(bs, i)
  }

  /** No free block ends at the break. */
  ghost predicate LastUsed(bs: seq<Block>) {
    |bs| > 0 ==> !bs[|bs| - 1].free
  }

  ghost predicate Laid(bs: seq<Block>, brk: int) {
    Tiled(bs, brk) && Shaped(bs) && NoAdjacentFree(bs) && brk <= HEAP_END
  }

  ghost predicate Good(bs: seq<Block>, brk: int) {
    Laid(bs, brk) && LastUsed(bs)
  }

  lemma {:induction false} Ordered(bs: seq<Block>, brk: int, i: nat, j: nat)
    requires Tiled(bs, brk) && Shaped(bs)
    requires i < j <= |bs|
    ensures bs[i].End() <= At(bs, brk, j)
    ensures j < |bs| ==> bs[i].addr + MIN_BLOCK <= bs[j].addr
  {
    assert Meets(bs, brk, j - 1);
    if i + 1 < j {
      Ordered(bs, brk, i, j - 1);
    }
  }

  lemma {:induction false} Bounds(bs: seq<Block>, brk: int, i: nat)
    requires Tiled(bs, brk) && Shaped(bs)
    requires i < |bs|
    ensures HEAP_START <= bs[i].addr && bs[i].End() <= brk
  {
    Ordered(bs, brk, i, |bs|);
    if i > 0 {
      Ordered(bs, brk, 0, i);
    }
  }

  /* ---------------- kmalloc ---------------- */

  /** The first free block at or after `k` with at least `need` bytes, or |bs|. */
  ghost function FirstFit(bs: seq<Block>, need: int, k: nat): (j: nat)
    requires k <= |bs|
    ensures k <= j <= |bs|
    ensures forall i :: k <= i < j ==> !(bs[i].free && bs[i].size >= need)
    ensures j < |bs| ==> bs[j].free && bs[j].size >= need
    decreases |bs| - k
  {
    if k == |bs| || (bs[k].free && bs[k].size >= need) then k else FirstFit(bs, need, k + 1)
  }

  /** Hand out block `j`, splitting off the rest when it can stand as a block of its own. */
  ghost function Carve(bs: seq<Block>, j: nat, need: int): seq<Block>
    requires j < |bs|
  {
    var b := bs[j];
    if b.size - need >= MIN_BLOCK then
      bs[..j] + [Block(b.addr, need, false), Block(b.addr + need, b.size - need, true)] + bs[j + 1..]
    else
      bs[j := b.(free := false)]
  }

  ghost predicate GoodNeed(need: int) {
    need >= MIN_BLOCK && need % 16 == 0
  }

  ghost predicate Fits(bs: seq<Block>, need: int) {
    FirstFit(bs, need, 0) < |bs|
  }

  ghost function Alloc(bs: seq<Block>, brk: int, need: int): seq<Block> {
    if Fits(bs, need) then Carve(bs, FirstFit(bs, need, 0), need) else bs + [Block(brk, need, false)]
  }

  ghost function AllocBrk(bs: seq<Block>, brk: int, need: int): int {
    if Fits(bs, need) then brk else brk + need
  }

  ghost function AllocAddr(bs: seq<Block>, brk: int, need: int): int {
    At(bs, brk, FirstFit(bs, need, 0))
  }

  /** Carve, index by index. */
  lemma {:induction false} CarveAt(bs: seq<Block>, j: nat, need: int, i: nat)
    requires j < |bs| && i < |Carve(bs, j, need)|
    ensures bs[j].size - need < MIN_BLOCK ==>
      |Carve(bs, j, need)| == |bs| && Carve(bs, j, need)[i] == if i == j then bs[j].(free := false) else bs[i]
    ensures bs[j].size - need >= MIN_BLOCK ==>
      && |Carve(bs, j, need)| == |bs| + 1
      && (i < j ==> Carve(bs, j, need)[i] == bs[i])
      && (i == j ==> Carve(bs, j, need)[i] == Block(bs[j].addr, need, false))
      && (i == j + 1 ==> Carve(bs, j, need)[i] == Block(bs[j].addr + need, bs[j].size - need, true))
      && (i > j + 1 ==> Carve(bs, j, need)[i] == bs[i - 1])
  {
  }

  lemma {:induction false} CarveTiled(bs: seq<Block>, brk: int, j: nat, need: int)
    requires Tiled(bs, brk) && Shaped(bs) && GoodNeed(need)
    requires j < |bs| && bs[j].size >= need
    ensures Tiled(Carve(bs, j, need), brk) && Shaped(Carve(bs, j, need))
  {
    var cs := Carve(bs, j, need);
    var shift := if |cs| == |bs| then 0 else 1;
    forall i | 0 <= i < |cs|
      ensures Meets(cs, brk, i)
      ensures WellSized(cs[i])
    {
      CarveAt(bs, j, need, i);
      if i + 1 < |cs| {
        CarveAt(bs, j, need, i + 1);
      }
      var was := if i <= j then i else i - shift;
      assert Meets(bs, brk, was);
    }
    CarveAt(bs, j, need, 0);
  }

  lemma {:induction false} CarveGood(bs: seq<Block>, brk: int, j: nat, need: int)
    requires Good(bs, brk) && GoodNeed(need)
    requires j < |bs| && bs[j].free && bs[j].size >= need
    ensures Good(Carve(bs, j, need), brk)
  {
    var cs := Carve(bs, j, need);
    CarveTiled(bs, brk, j, need);
    forall i
      ensures !BothFree(cs, i)
    {
      if 0 <= i < |cs| - 1 {
        CarveAt(bs, j, need, i);
        CarveAt(bs, j, need, i + 1);
        assert !BothFree(bs, i) && !BothFree(bs, i - 1);
      }
    }
    CarveAt(bs, j, need, |cs| - 1);
  }

  lemma {:induction false} AppendGood(bs: seq<Block>, brk: int, need: int)
    requires Good(bs, brk) && GoodNeed(need) && brk + need <= HEAP_END
    ensures Good(bs + [Block(brk, need, false)], brk + need)
  {
    var cs, top := bs + [Block(brk, need, false)], brk + need;
    BreakAligned(bs, brk);
    forall i | 0 <= i < |cs|
      ensures Meets(cs, top, i)
    {
      if i < |bs| {
        assert Meets(bs, brk, i);
      }
    }
    forall i
      ensures !BothFree(cs, i)
    {
      assert !BothFree(bs, i);
    }
  }

  lemma {:induction false} AllocGood(bs: seq<Block>, brk: int, need: int)
    requires Good(bs, brk) && GoodNeed(need)
    requires Fits(bs, need) || brk + need <= HEAP_END
    ensures Good(Alloc(bs, brk, need), AllocBrk(bs, brk, need))
  {
    if Fits(bs, need) {
      CarveGood(bs, brk, FirstFit(bs, need, 0), need);
    } else {
      AppendGood(bs, brk, need);
    }
  }

  lemma {:induction false} BreakAligned(bs: seq<Block>, brk: int)
    requires Tiled(bs, brk) && Shaped(bs)
    ensures brk % 16 == 0 && HEAP_START <= brk
  {
    if |bs| > 0 {
      Bounds(bs, brk, |bs| - 1);
      assert Meets(bs, brk, |bs| - 1);
    }
  }

  /* ---------------- kfree ---------------- */

  ghost function SetFree(bs: seq<Block>, k: nat): seq<Block>
    requires k < |bs|
  {
    bs[k := bs[k].(free := true)]
  }

  ghost predicate Mergeable(bs: seq<Block>, i: nat) {
    i + 1 < |bs| && bs[i].free && bs[i + 1].free
  }

  /** Join blocks `i` and `i + 1` when both are free. */
  ghost function Merge(bs: seq<Block>, i: nat): seq<Block> {
    if Mergeable(bs, i) then
      bs[..i] + [Block(bs[i].addr, bs[i].size + bs[i + 1].size, true)] + bs[i + 2..]
    else
      bs
  }

  /** Give free blocks at the end back by lowering the break. */
  ghost function Trim(bs: seq<Block>): seq<Block> {
    if |bs| > 0 && bs[|bs| - 1].free then Trim(bs[..|bs| - 1]) else bs
  }

  ghost function TrimBrk(bs: seq<Block>, brk: int): int {
    if |bs| > 0 && bs[|bs| - 1].free then TrimBrk(bs[..|bs| - 1], bs[|bs| - 1].addr) else brk
  }

  /** The layout after joining block `k` with its free neighbours. */
  ghost function Joined(bs: seq<Block>, k: nat): seq<Block>
    requires k < |bs|
  {
    var right := Merge(SetFree(bs, k), k);
    if k > 0 then Merge(right, k - 1) else right
  }

  ghost function Release(bs: seq<Block>, k: nat): seq<Block>
    requires k < |bs|
  {
    Trim(Joined(bs, k))
  }

  ghost function ReleaseBrk(bs: seq<Block>, brk: int, k: nat): int
    requires k < |bs|
  {
    TrimBrk(Joined(bs, k), brk)
  }

  lemma {:induction false} MergeShape(bs: seq<Block>, brk: int, i: nat)
    requires Tiled(bs, brk) && Shaped(bs)
    ensures Tiled(Merge(bs, i), brk) && Shaped(Merge(bs, i))
  {
    if Mergeable(bs, i) {
      var cs := Merge(bs, i);
      assert Meets(bs, brk, i);
      forall k | 0 <= k < |cs|
        ensures Meets(cs, brk, k)
        ensures WellSized(cs[k])
      {
        if k < i {
          assert Meets(bs, brk, k);
        } else {
          assert Meets(bs, brk, k + 1);
        }
      }
    }
  }

  lemma {:induction false} SetFreeShape(bs: seq<Block>, brk: int, k: nat)
    requires Tiled(bs, brk) && Shaped(bs) && k < |bs|
    ensures Tiled(SetFree(bs, k), brk) && Shaped(SetFree(bs, k))
  {
    var f := SetFree(bs, k);
    forall i | 0 <= i < |f|
      ensures Meets(f, brk, i)
    {
      assert Meets(bs, brk, i);
    }
  }

  /** Only the pair before `k` can be two adjacent free blocks. */
  ghost predicate NoAdjacentFreeBut(bs: seq<Block>, k: int) {
    forall i :: i != k - 1 ==> !BothFree(bs, i)
  }

  lemma {:induction false} RightJoin(bs: seq<Block>, k: nat)
    requires NoAdjacentFree(bs)
    requires k < |bs| && !bs[k].free
    ensures NoAdjacentFreeBut(Merge(SetFree(bs, k), k), k)
    ensures k > 0 ==> Merge(SetFree(bs, k), k)[..k] == bs[..k]
    ensures k < |Merge(SetFree(bs, k), k)| && Merge(SetFree(bs, k), k)[k].free
  {
    var f := SetFree(bs, k);
    var r := Merge(f, k);
    forall i | i != k - 1
      ensures !BothFree(r, i)
    {
      assert !BothFree(bs, i) && !BothFree(bs, i + 1);
    }
  }

  lemma {:induction false} LeftJoin(r: seq<Block>, k: nat)
    requires 0 < k < |r| && r[k].free && NoAdjacentFreeBut(r, k)
    requires !BothFree(r, k - 2)
    ensures NoAdjacentFree(Merge(r, k - 1))
  {
    if Mergeable(r, k - 1) {
      var l := Merge(r, k - 1);
      forall i
        ensures !BothFree(l, i)
      {
        assert i != k - 1 ==> !BothFree(r, i);
        assert i + 1 != k - 1 ==> !BothFree(r, i + 1);
      }
    } else {
      assert !BothFree(r, k - 1);
    }
  }

  /** Freeing one block of a layout without free neighbours leaves none after both joins. */
  lemma {:induction false} JoinedGood(bs: seq<Block>, brk: int, k: nat)
    requires Good(bs, brk)
    requires k < |bs| && !bs[k].free
    ensures Tiled(Joined(bs, k), brk) && Shaped(Joined(bs, k)) && NoAdjacentFree(Joined(bs, k))
  {
    SetFreeShape(bs, brk, k);
    MergeShape(SetFree(bs, k), brk, k);
    RightJoin(bs, k);
    if k > 0 {
      var r := Merge(SetFree(bs, k), k);
      MergeShape(r, brk, k - 1);
      assert r[k - 1] == r[..k][k - 1] == bs[k - 1];
      assert k > 1 ==> r[k - 2] == r[..k][k - 2] == bs[k - 2];
      assert !BothFree(bs, k - 2);
      LeftJoin(r, k);
    }
  }

  lemma {:induction false} LaidPrefix(bs: seq<Block>, brk: int)
    requires Laid(bs, brk) && |bs| > 0
    ensures Laid(bs[..|bs| - 1], bs[|bs| - 1].addr)
  {
    var n := |bs| - 1;
    var cs, top := bs[..n], bs[n].addr;
    Bounds(bs, brk, n);
    forall i | 0 <= i < n
      ensures Meets(cs, top, i)
    {
      assert Meets(bs, brk, i);
    }
    forall i
      ensures !BothFree(cs, i)
    {
      assert !BothFree(bs, i);
    }
  }

  lemma {:induction false} TrimGood(bs: seq<Block>, brk: int)
    requires Laid(bs, brk)
    ensures Good(Trim(bs), TrimBrk(bs, brk))
  {
    if |bs| > 0 && bs[|bs| - 1].free {
      LaidPrefix(bs, brk);
      TrimGood(bs[..|bs| - 1], bs[|bs| - 1].addr);
    }
  }

  lemma {:induction false} ReleaseGood(bs: seq<Block>, brk: int, k: nat)
    requires Good(bs, brk)
    requires k < |bs| && !bs[k].free
    ensures Good(Release(bs, k), ReleaseBrk(bs, brk, k))
  {
    JoinedGood(bs, brk, k);
    TrimGood(Joined(bs, k), brk);
  }

  /* ---------------- what the layout means ---------------- */

  /** The allocations outstanding. */
  ghost function Live(bs: seq<Block>): set<Block> {
    set b | b in bs && !b.free
  }

  /** The layout is determined by the allocations outstanding: no history shows in it. */
  lemma {:induction false} LayoutDeterminedByLive(bs: seq<Block>, brk: int, cs: seq<Block>, crk: int)
    requires Good(bs, brk) && Good(cs, crk)
    requires Live(bs) == Live(cs)
    ensures bs == cs && brk == crk
  {
    var i := 0;
    while i < |bs| && i < |cs|
      invariant i <= |bs| && i <= |cs|
      invariant bs[..i] == cs[..i]
      invariant At(bs, brk, i) == At(cs, crk, i) || i == 0 || i == |bs| || i == |cs|
      invariant i < |bs| && i < |cs| ==> bs[i].addr == cs[i].addr
    {
      SameBlock(bs, brk, cs, crk, i);
      SameBlock(cs, crk, bs, brk, i);
      assert bs[i] == cs[i];
      assert Meets(bs, brk, i);
      assert Meets(cs, crk, i);
      i := i + 1;
    }
    if i < |bs| {
      NoExtra(cs, crk, bs, brk);
    } else if i < |cs| {
      NoExtra(bs, brk, cs, crk);
    }
    if |bs| > 0 {
      assert Meets(bs, brk, |bs| - 1);
      assert Meets(cs, crk, |cs| - 1);
    }
  }

  lemma {:induction false} NoExtra(bs: seq<Block>, brk: int, cs: seq<Block>, crk: int)
    requires Good(bs, brk) && Good(cs, crk)
    requires |bs| < |cs| && bs == cs[..|bs|]
    ensures Live(bs) != Live(cs)
  {
    var last := cs[|cs| - 1];
    assert last in Live(cs);
    if last in Live(bs) {
      var j :| 0 <= j < |bs| && bs[j] == last;
      Ordered(cs, crk, j, |cs| - 1);
    }
  }

  /** A used block at the shared address is the other list's block; a free one has its size. */
  lemma {:induction false} SameBlock(bs: seq<Block>, brk: int, cs: seq<Block>, crk: int, i: nat)
    requires Good(bs, brk) && Good(cs, crk)
    requires Live(bs) == Live(cs)
    requires i < |bs| && i < |cs| && bs[i].addr == cs[i].addr
    ensures !bs[i].free ==> cs[i] == bs[i]
    ensures bs[i].free && cs[i].free ==> cs[i].size <= bs[i].size
  {
    if !bs[i].free {
      InOther(bs, cs, crk, i, i);
    } else if cs[i].free && bs[i].size < cs[i].size {
      assert Meets(bs, brk, i) && !BothFree(bs, i);
      assert bs[i + 1] in Live(cs);
      var j :| 0 <= j < |cs| && cs[j] == bs[i + 1];
      if j < i {
        Ordered(cs, crk, j, i);
      } else if j > i {
        Ordered(cs, crk, i, j);
      }
    }
  }

  lemma {:induction false} InOther(bs: seq<Block>, cs: seq<Block>, crk: int, i: nat, at: nat)
    requires i < |bs| && !bs[i].free && Live(bs) == Live(cs)
    requires Tiled(cs, crk) && Shaped(cs)
    requires at < |cs| && cs[at].addr == bs[i].addr
    ensures cs[at] == bs[i]
  {
    assert bs[i] in Live(cs);
    var j :| 0 <= j < |cs| && cs[j] == bs[i];
    if j < at {
      Ordered(cs, crk, j, at);
    } else if at < j {
      Ordered(cs, crk, at, j);
    }
  }

  lemma {:induction false} Distinct(bs: seq<Block>, brk: int, i: nat, j: nat)
    requires Tiled(bs, brk) && Shaped(bs)
    requires i < |bs| && j < |bs| && bs[i].addr == bs[j].addr
    ensures i == j
  {
    if i < j {
      Ordered(bs, brk, i, j);
    } else if j < i {
      Ordered(bs, brk, j, i);
    }
  }

  ghost predicate Disjoint(b: Block, c: Block) {
    b.End() <= c.addr || c.End() <= b.addr
  }

  /** kmalloc adds one allocation of at least `need` bytes, clear of every outstanding one. */
  lemma {:induction false} AllocLive(bs: seq<Block>, brk: int, need: int) returns (k: nat)
    requires Good(bs, brk) && GoodNeed(need)
    ensures k < |Alloc(bs, brk, need)|
    ensures var b := Alloc(bs, brk, need)[k];
      && b.addr == AllocAddr(bs, brk, need)
      && need <= b.size < need + MIN_BLOCK
      && b !in Live(bs)
      && Live(Alloc(bs, brk, need)) == Live(bs) + {b}
      && forall c :: c in Live(bs) ==> Disjoint(b, c)
  {
    var cs := Alloc(bs, brk, need);
    k := FirstFit(bs, need, 0);
    var b := cs[k];
    if k < |bs| {
      CarveAt(bs, k, need, k);
    }
    forall c | c in Live(bs)
      ensures Disjoint(b, c)
    {
      var i :| 0 <= i < |bs| && bs[i] == c;
      if i < k {
        Ordered(bs, brk, i, k);
      } else {
        Ordered(bs, brk, k, i);
      }
    }
    forall c: Block
      ensures c in Live(cs) <==> c in Live(bs) + {b}
    {
      if c in Live(cs) {
        var i :| 0 <= i < |cs| && cs[i] == c;
        if k < |bs| {
          CarveAt(bs, k, need, i);
        }
      }
      if c in Live(bs) {
        var i :| 0 <= i < |bs| && bs[i] == c;
        if k < |bs| {
          CarveAt(bs, k, need, if i < k || |cs| == |bs| then i else i + 1);
        } else {
          assert cs[i] == c;
        }
      }
    }
  }

  lemma {:induction false} MergeLive(bs: seq<Block>, i: nat)
    ensures Live(Merge(bs, i)) == Live(bs)
  {
    if Mergeable(bs, i) {
      var cs := Merge(bs, i);
      forall c | c in Live(bs)
        ensures c in Live(cs)
      {
        var j :| 0 <= j < |bs| && bs[j] == c;
        assert cs[if j < i then j else j - 1] == c;
      }
    }
  }

  lemma {:induction false} TrimLive(bs: seq<Block>)
    ensures Live(Trim(bs)) == Live(bs)
  {
    if |bs| > 0 && bs[|bs| - 1].free {
      var n := |bs| - 1;
      TrimLive(bs[..n]);
      assert bs == bs[..n] + [bs[n]];
    }
  }

  lemma {:induction false} SetFreeLive(bs: seq<Block>, brk: int, k: nat)
    requires Tiled(bs, brk) && Shaped(bs)
    requires k < |bs| && !bs[k].free
    ensures Live(SetFree(bs, k)) == Live(bs) - {bs[k]}
  {
    var f := SetFree(bs, k);
    forall c: Block
      ensures c in Live(f) <==> c in Live(bs) - {bs[k]}
    {
      if c in Live(f) {
        var i :| 0 <= i < |f| && f[i] == c;
        if bs[i] == bs[k] {
          Distinct(bs, brk, i, k);
        }
      }
      if c in Live(bs) && c != bs[k] {
        var i :| 0 <= i < |bs| && bs[i] == c;
        assert f[i] == c;
      }
    }
  }

  /** kfree removes exactly the freed allocation. */
  lemma {:induction false} ReleaseLive(bs: seq<Block>, brk: int, k: nat)
    requires Good(bs, brk)
    requires k < |bs| && !bs[k].free
    ensures Live(Release(bs, k)) == Live(bs) - {bs[k]}
  {
    var f := SetFree(bs, k);
    SetFreeLive(bs, brk, k);
    MergeLive(f, k);
    if k > 0 {
      MergeLive(Merge(f, k), k - 1);
    }
    TrimLive(Joined(bs, k));
  }

  /** Freeing what was just allocated restores the layout and the break exactly. */
  lemma {:induction false} AllocReleaseRoundTrip(bs: seq<Block>, brk: int, need: int) returns (k: nat)
    requires Good(bs, brk) && GoodNeed(need)
    requires Fits(bs, need) || brk + need <= HEAP_END
    ensures k < |Alloc(bs, brk, need)| && Alloc(bs, brk, need)[k].addr == AllocAddr(bs, brk, need)
    ensures Release(Alloc(bs, brk, need), k) == bs
    ensures ReleaseBrk(Alloc(bs, brk, need), AllocBrk(bs, brk, need), k) == brk
  {
    k := AllocLive(bs, brk, need);
    var cs, crk := Alloc(bs, brk, need), AllocBrk(bs, brk, need);
    AllocGood(bs, brk, need);
    assert cs[k] in Live(cs);
    ReleaseGood(cs, crk, k);
    ReleaseLive(cs, crk, k);
    LayoutDeterminedByLive(Release(cs, k), ReleaseBrk(cs, crk, k), bs, brk);
  }

  /** Freeing two allocations in either order leaves the same layout and the same break. */
  lemma {:induction false} ReleaseOrderIrrelevant(bs: seq<Block>, brk: int, i: nat, j: nat, i': nat, j': nat)
    requires Good(bs, brk)
    requires i < |bs| && j < |bs| && !bs[i].free && !bs[j].free && i != j
    requires j' < |Release(bs, i)| && Release(bs, i)[j'] == bs[j]
    requires i' < |Release(bs, j)| && Release(bs, j)[i'] == bs[i]
    ensures Release(Release(bs, i), j') == Release(Release(bs, j), i')
    ensures ReleaseBrk(Release(bs, i), ReleaseBrk(bs, brk, i), j') ==
      ReleaseBrk(Release(bs, j), ReleaseBrk(bs, brk, j), i')
  {
    var a, ark := Release(bs, i), ReleaseBrk(bs, brk, i);
    var b, brk' := Release(bs, j), ReleaseBrk(bs, brk, j);
    ReleaseGood(bs, brk, i);
    ReleaseLive(bs, brk, i);
    ReleaseGood(bs, brk, j);
    ReleaseLive(bs, brk, j);
    ReleaseGood(a, ark, j');
    ReleaseLive(a, ark, j');
    ReleaseGood(b, brk', i');
    ReleaseLive(b, brk', i');
    LayoutDeterminedByLive(Release(a, j'), ReleaseBrk(a, ark, j'), Release(b, i'), ReleaseBrk(b, brk', i'));
  }

  /* ---------------- runs ---------------- */

  /** One call: `canGrow` is whether the pages for a higher break could be had. */
  datatype Call = Malloc(need: int, canGrow: bool) | Free(addr: int)

  datatype Layout = Layout(bs: seq<Block>, brk: int)

  ghost predicate LegalCall(c: Call) {
    c.Malloc? ==> GoodNeed(c.need)
  }

  ghost function Step(s: Layout, c: Call): Layout {
    match c
    case Malloc(need, canGrow) =>
      if Fits(s.bs, need) || (s.brk + need <= HEAP_END && canGrow) then
        Layout(Alloc(s.bs, s.brk, need), AllocBrk(s.bs, s.brk, need))
      else
        s
    case Free(addr) =>
      if k: nat :| k < |s.bs| && !s.bs[k].free && s.bs[k].addr == addr then
        Layout(Release(s.bs, k), ReleaseBrk(s.bs, s.brk, k))
      else
        s
  }

  ghost function Run(s: Layout, calls: seq<Call>): Layout
    decreases |calls|
  {
    if calls == [] then s else Run(Step(s, calls[0]), calls[1..])
  }

  lemma {:induction false} StepGood(s: Layout, c: Call)
    requires Good(s.bs, s.brk) && LegalCall(c)
    ensures Good(Step(s, c).bs, Step(s, c).brk)
    ensures forall b :: b in Live(s.bs) && c != Free(b.addr) ==> b in Live(Step(s, c).bs)
  {
    match c
    case Malloc(need, canGrow) =>
      if Fits(s.bs, need) || (s.brk + need <= HEAP_END && canGrow) {
        AllocGood(s.bs, s.brk, need);
        var _ := AllocLive(s.bs, s.brk, need);
      }
    case Free(addr) =>
      if k: nat :| k < |s.bs| && !s.bs[k].free && s.bs[k].addr == addr {
        forall k: nat | k < |s.bs| && !s.bs[k].free && s.bs[k].addr == addr
          ensures Good(Release(s.bs, k), ReleaseBrk(s.bs, s.brk, k))
          ensures Live(Release(s.bs, k)) == Live(s.bs) - {s.bs[k]}
        {
          ReleaseGood(s.bs, s.brk, k);
          ReleaseLive(s.bs, s.brk, k);
        }
      }
  }

  /** Every run keeps the layout good, and keeps every allocation it does not free. */
  lemma {:induction false} RunKeepsLayoutAndAllocations(s: Layout, calls: seq<Call>)
    requires Good(s.bs, s.brk)
    requires forall c :: c in calls ==> LegalCall(c)
    ensures Good(Run(s, calls).bs, Run(s, calls).brk)
    ensures forall b :: b in Live(s.bs) && Free(b.addr) !in calls ==> b in Live(Run(s, calls).bs)
    decreases |calls|
  {
    if calls != [] {
      var c, rest := calls[0], calls[1..];
      var t := Step(s, c);
      StepGood(s, c);
      RunKeepsLayoutAndAllocations(t, rest);
      assert Run(s, calls) == Run(t, rest);
    }
  }

  /** Two runs that end with the same allocations outstanding end in the same heap. */
  lemma {:induction false} RunsAgree(calls: seq<Call>, others: seq<Call>)
    requires forall c :: c in calls ==> LegalCall(c)
    requires forall c :: c in others ==> LegalCall(c)
    requires Live(Run(Layout([], HEAP_START), calls).bs) == Live(Run(Layout([], HEAP_START), others).bs)
    ensures Run(Layout([], HEAP_START), calls) == Run(Layout([], HEAP_START), others)
  {
    var s := Layout([], HEAP_START);
    RunKeepsLayoutAndAllocations(s, calls);
    RunKeepsLayoutAndAllocations(s, others);
    LayoutDeterminedByLive(Run(s, calls).bs, Run(s, calls).brk, Run(s, others).bs, Run(s, others).brk);
  }
}
