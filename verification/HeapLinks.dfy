/**
 The in-memory form of a heap layout: every block starts with two words, its size (odd when
 the block is free) and either the address of the next free block or a magic number.
 */
module HeapLinks {
  import opened HeapLayout

  const MAGIC := 0x4845_4150_5553_4544

  /** Memory by word address; exactly the mapped words are present. */
  type Memory = map<int, int>

  ghost function FirstFree(bs: seq<Block>, k: nat): (j: nat)
    requires k <= |bs|
    ensures k <= j <= |bs|
    ensures forall i :: k <= i < j ==> !bs[i].free
    ensures j < |bs| ==> bs[j].free
    decreases |bs| - k
  {
    if k == |bs| || bs[k].free then k else FirstFree(bs, k + 1)
  }

  /** The address of the first free block at or after index `k`, or 0. */
  ghost function NextAddr(bs: seq<Block>, k: nat): int
    requires k <= |bs|
  {
    var j := FirstFree(bs, k);
    if j < |bs| then bs[j].addr else 0
  }

  ghost predicate HeaderOk(bs: seq<Block>, mem: Memory, i: int) {
    && 0 <= i < |bs|
    && bs[i].addr in mem
    && bs[i].addr + 8 in mem
    && mem[bs[i].addr] == bs[i].size + (if bs[i].free then 1 else 0)
    && mem[bs[i].addr + 8] == if bs[i].free then NextAddr(bs, i + 1) else MAGIC
  }

  /** The list from `head` visits exactly the free blocks, in address order. */
  ghost predicate Linked(bs: seq<Block>, mem: Memory, head: int) {
    && head == NextAddr(bs, 0)
    && forall i :: 0 <= i < |bs| ==> HeaderOk(bs, mem, i)
  }

  /** `p` is the last free block before index `j`, or -1. */
  ghost predicate PrevFree(bs: seq<Block>, j: int, p: int) {
    && -1 <= p < j <= |bs|
    && (p >= 0 ==> bs[p].free)
    && forall i :: p < i < j ==> !bs[i].free
  }

  ghost function PrevAddr(bs: seq<Block>, p: int): int
    requires p < |bs|
  {
    if p < 0 then 0 else bs[p].addr
  }

  /** Point the predecessor (or the list head) at `target`. */
  ghost function LinkMem(bs: seq<Block>, mem: Memory, p: int, target: int): Memory
    requires p < |bs|
  {
    if p < 0 then mem else mem[bs[p].addr + 8 := target]
  }

  ghost function LinkHead(head: int, p: int, target: int): int {
    if p < 0 then target else head
  }

  lemma {:induction false} FirstFreeIs(bs: seq<Block>, k: nat, j: nat)
    requires k <= j <= |bs|
    requires forall i :: k <= i < j ==> !bs[i].free
    requires j < |bs| ==> bs[j].free
    ensures FirstFree(bs, k) == j
  {
  }

  /** NextAddr looks only at the blocks from `k` on. */
  lemma {:induction false} NextAddrSuffix(bs: seq<Block>, k: nat, cs: seq<Block>, l: nat)
    requires k <= |bs| && l <= |cs| && |bs| - k == |cs| - l
    requires forall i :: l <= i < |cs| ==> cs[i] == bs[i - l + k]
    ensures NextAddr(cs, l) == NextAddr(bs, k)
  {
    var j := FirstFree(bs, k);
    forall i | l <= i < j - k + l
      ensures !cs[i].free
    {
      assert !bs[i - l + k].free;
    }
    FirstFreeIs(cs, l, j - k + l);
  }

  /** NextAddr looks no further than the first free block. */
  lemma {:induction false} NextAddrPrefix(bs: seq<Block>, cs: seq<Block>, k: nat, m: nat)
    requires k <= m < |bs| && m < |cs|
    requires forall i :: k <= i < m ==> cs[i] == bs[i]
    requires bs[m].free && cs[m].free && bs[m].addr == cs[m].addr
    ensures NextAddr(cs, k) == NextAddr(bs, k)
  {
    var j := FirstFree(bs, k);
    FirstFreeIs(cs, k, j);
  }

  /** The header words of two blocks never coincide. */
  lemma {:induction false} HeadersApart(bs: seq<Block>, brk: int, i: nat, j: nat)
    requires Tiled(bs, brk) && Shaped(bs)
    requires i < |bs| && j < |bs| && i != j
    ensures bs[i].addr + 16 <= bs[j].addr || bs[j].addr + 16 <= bs[i].addr
  {
    if i < j {
      Ordered(bs, brk, i, j);
    } else {
      Ordered(bs, brk, j, i);
    }
  }

  /* ---------------- each pointer surgery keeps the list right ---------------- */

  /** kmalloc without a split: unlink block `j` and mark it used. */
  lemma {:induction false} TakeLinked(bs: seq<Block>, brk: int, mem: Memory, head: int, j: nat, p: int)
    requires Tiled(bs, brk) && Shaped(bs) && Linked(bs, mem, head)
    requires j < |bs| && bs[j].free && PrevFree(bs, j, p)
    ensures var next := NextAddr(bs, j + 1);
      Linked(bs[j := bs[j].(free := false)],
             LinkMem(bs, mem, p, next)[bs[j].addr := bs[j].size][bs[j].addr + 8 := MAGIC],
             LinkHead(head, p, next))
  {
    var next := NextAddr(bs, j + 1);
    var cs := bs[j := bs[j].(free := false)];
    var mem' := LinkMem(bs, mem, p, next)[bs[j].addr := bs[j].size][bs[j].addr + 8 := MAGIC];
    forall i | 0 <= i < |cs|
      ensures HeaderOk(cs, mem', i)
    {
      assert HeaderOk(bs, mem, i);
      if i != j {
        HeadersApart(bs, brk, i, j);
        if p >= 0 && i != p {
          HeadersApart(bs, brk, i, p);
        }
        if i == p {
          SkipOver(bs, cs, p + 1, j);
        } else if i > j {
          NextAddrSuffix(bs, i + 1, cs, i + 1);
        } else if i < p {
          NextAddrPrefix(bs, cs, i + 1, p);
        }
      } else if p >= 0 {
        HeadersApart(bs, brk, j, p);
      }
    }
    if p < 0 {
      SkipOver(bs, cs, 0, j);
    } else {
      NextAddrPrefix(bs, cs, 0, p);
    }
  }

  lemma {:induction false} SkipOver(bs: seq<Block>, cs: seq<Block>, k: nat, j: nat)
    requires k <= j < |bs| && cs == bs[j := bs[j].(free := false)]
    requires forall i :: k <= i < j ==> !bs[i].free
    ensures NextAddr(cs, k) == NextAddr(bs, j + 1)
  {
    FirstFreeIs(cs, k, FirstFree(bs, j + 1));
  }

  /** `cs` is `bs` with the free block `i` cut into two free blocks. */
  ghost predicate Halved(bs: seq<Block>, cs: seq<Block>, i: nat) {
    && i < |bs| && |cs| == |bs| + 1
    && bs[i].free && cs[i].free && cs[i + 1].free && cs[i].addr == bs[i].addr
    && (forall k :: 0 <= k < i ==> cs[k] == bs[k])
    && (forall k :: i + 1 < k < |cs| ==> cs[k] == bs[k - 1])
  }

  lemma {:induction false} NextAddrHalved(bs: seq<Block>, cs: seq<Block>, i: nat, k: nat)
    requires Halved(bs, cs, i) && k <= |bs|
    ensures k <= i ==> NextAddr(cs, k) == NextAddr(bs, k)
    ensures k > i ==> NextAddr(cs, k + 1) == NextAddr(bs, k)
    ensures NextAddr(cs, i + 1) == cs[i + 1].addr
  {
    if k <= i {
      NextAddrPrefix(bs, cs, k, i);
    } else {
      NextAddrSuffix(bs, k, cs, k + 1);
    }
  }

  /** The two forms describe the same memory, apart from the two headers concerned. */
  lemma {:induction false} HalvedLinked(bs: seq<Block>, mem: Memory, cs: seq<Block>, mem': Memory, head: int, i: nat)
    requires Halved(bs, cs, i) && Linked(bs, mem, head)
    requires HeaderOk(cs, mem', i) && HeaderOk(cs, mem', i + 1)
    requires forall k :: 0 <= k < |bs| && k != i ==> SameHeader(bs[k], mem, mem')
    ensures Linked(cs, mem', head)
  {
    NextAddrHalved(bs, cs, i, 0);
    forall k | 0 <= k < |cs|
      ensures HeaderOk(cs, mem', k)
    {
      if k < i {
        assert HeaderOk(bs, mem, k) && SameHeader(bs[k], mem, mem');
        NextAddrHalved(bs, cs, i, k + 1);
      } else if k > i + 1 {
        assert HeaderOk(bs, mem, k - 1) && SameHeader(bs[k - 1], mem, mem');
        NextAddrHalved(bs, cs, i, k);
      }
    }
  }

  lemma {:induction false} MergedLinked(bs: seq<Block>, mem: Memory, cs: seq<Block>, mem': Memory, head: int, i: nat)
    requires Halved(bs, cs, i) && Linked(cs, mem, head)
    requires HeaderOk(bs, mem', i)
    requires forall k :: 0 <= k < |bs| && k != i ==> SameHeader(bs[k], mem, mem')
    ensures Linked(bs, mem', head)
  {
    NextAddrHalved(bs, cs, i, 0);
    forall k | 0 <= k < |bs|
      ensures HeaderOk(bs, mem', k)
    {
      if k < i {
        assert HeaderOk(cs, mem, k) && SameHeader(bs[k], mem, mem');
        NextAddrHalved(bs, cs, i, k + 1);
      } else if k > i {
        assert HeaderOk(cs, mem, k + 1) && SameHeader(bs[k], mem, mem');
        NextAddrHalved(bs, cs, i, k + 1);
      }
    }
  }

  ghost predicate SameHeader(b: Block, mem: Memory, mem': Memory) {
    && b.addr in mem && b.addr in mem' && mem'[b.addr] == mem[b.addr]
    && b.addr + 8 in mem && b.addr + 8 in mem' && mem'[b.addr + 8] == mem[b.addr + 8]
  }

  /** kmalloc with a split: the rest of block `j` takes its place in the list. */
  lemma {:induction false} SplitLinked(bs: seq<Block>, brk: int, mem: Memory, head: int, j: nat, p: int, need: int)
    requires Tiled(bs, brk) && Shaped(bs) && Linked(bs, mem, head) && GoodNeed(need)
    requires j < |bs| && bs[j].free && PrevFree(bs, j, p) && bs[j].size - need >= MIN_BLOCK
    ensures var split, next := bs[j].addr + need, NextAddr(bs, j + 1);
      var m1 := mem[split := bs[j].size - need + 1][split + 8 := next];
      Linked(Carve(bs, j, need),
             LinkMem(bs, m1, p, split)[bs[j].addr := need][bs[j].addr + 8 := MAGIC],
             LinkHead(head, p, split))
  {
    var b, split, next := bs[j].addr, bs[j].addr + need, NextAddr(bs, j + 1);
    var m1 := mem[split := bs[j].size - need + 1][split + 8 := next];
    var m2 := m1[b := need + 1][b + 8 := split];
    var cs := bs[..j] + [Block(b, need, true), Block(split, bs[j].size - need, true)] + bs[j + 1..];
    CutLinked(bs, brk, mem, head, j, need, cs, m2);
    CutTiled(bs, brk, j, need, cs);
    CutPrev(bs, cs, j, p);
    TakeLinked(cs, brk, m2, head, j, p);
    CarveIsCutAndTake(bs, cs, j, need);
    if p >= 0 {
      HeadersApart(bs, brk, p, j);
      Overwritten(m1, b, need + 1, split, bs[p].addr + 8, need);
    } else {
      OverwrittenHeader(m1, b, need + 1, split, need);
    }
  }

  lemma {:induction false} CarveIsCutAndTake(bs: seq<Block>, cs: seq<Block>, j: nat, need: int)
    requires j < |bs| && bs[j].size - need >= MIN_BLOCK
    requires cs == bs[..j] + [Block(bs[j].addr, need, true), Block(bs[j].addr + need, bs[j].size - need, true)] +
      bs[j + 1..]
    ensures Carve(bs, j, need) == cs[j := cs[j].(free := false)]
    ensures forall i :: 0 <= i < j ==> cs[i] == bs[i]
    ensures cs[j].size == need
  {
  }

  lemma {:induction false} OverwrittenHeader(m: Memory, b: int, x: int, y: int, need: int)
    ensures m[b := x][b + 8 := y][b := need][b + 8 := MAGIC] == m[b := need][b + 8 := MAGIC]
  {
  }

  /** What a header held before its last writes, around a write elsewhere, does not matter. */
  lemma {:induction false} Overwritten(m: Memory, b: int, x: int, y: int, q: int, need: int)
    requires q != b && q != b + 8
    ensures m[b := x][b + 8 := y][q := y][b := need][b + 8 := MAGIC] == m[q := y][b := need][b + 8 := MAGIC]
  {
  }

  lemma {:induction false} CutPrev(bs: seq<Block>, cs: seq<Block>, j: nat, p: int)
    requires Halved(bs, cs, j) && PrevFree(bs, j, p)
    ensures PrevFree(cs, j, p) && NextAddr(cs, j + 1) == cs[j + 1].addr
  {
  }

  lemma {:induction false} CutTiled(bs: seq<Block>, brk: int, j: nat, need: int, cs: seq<Block>)
    requires Tiled(bs, brk) && Shaped(bs) && GoodNeed(need)
    requires j < |bs| && bs[j].free && bs[j].size - need >= MIN_BLOCK
    requires cs == bs[..j] + [Block(bs[j].addr, need, true), Block(bs[j].addr + need, bs[j].size - need, true)] +
      bs[j + 1..]
    ensures Tiled(cs, brk) && Shaped(cs)
  {
    CarveTiled(bs, brk, j, need);
    SetFreeShape(Carve(bs, j, need), brk, j);
    assert cs == SetFree(Carve(bs, j, need), j);
  }

  lemma {:induction false} CutLinked(bs: seq<Block>, brk: int, mem: Memory, head: int, j: nat, need: int,
                                     cs: seq<Block>, m2: Memory)
    requires Tiled(bs, brk) && Shaped(bs) && Linked(bs, mem, head) && GoodNeed(need)
    requires j < |bs| && bs[j].free && bs[j].size - need >= MIN_BLOCK
    requires cs == bs[..j] + [Block(bs[j].addr, need, true), Block(bs[j].addr + need, bs[j].size - need, true)] +
      bs[j + 1..]
    requires m2 == mem[bs[j].addr + need := bs[j].size - need + 1][bs[j].addr + need + 8 := NextAddr(bs, j + 1)]
                      [bs[j].addr := need + 1][bs[j].addr + 8 := bs[j].addr + need]
    ensures Halved(bs, cs, j) && Linked(cs, m2, head)
  {
    NextAddrHalved(bs, cs, j, j + 1);
    forall k | 0 <= k < |bs| && k != j
      ensures SameHeader(bs[k], mem, m2)
    {
      assert HeaderOk(bs, mem, k);
      if k < j {
        Ordered(bs, brk, k, j);
      } else {
        Ordered(bs, brk, j, k);
      }
    }
    HalvedLinked(bs, mem, cs, m2, head, j);
  }

  /** kmalloc at the break: a used block behind the last one changes no link. */
  lemma {:induction false} AppendLinked(bs: seq<Block>, brk: int, mem: Memory, head: int, need: int)
    requires Tiled(bs, brk) && Shaped(bs) && Linked(bs, mem, head)
    requires brk in mem && brk + 8 in mem
    ensures Linked(bs + [Block(brk, need, false)], mem[brk := need][brk + 8 := MAGIC], head)
  {
    var cs := bs + [Block(brk, need, false)];
    var mem' := mem[brk := need][brk + 8 := MAGIC];
    forall k: nat | k <= |bs|
      ensures NextAddr(cs, k) == NextAddr(bs, k)
    {
      var j := FirstFree(bs, k);
      FirstFreeIs(cs, k, if j < |bs| then j else |cs|);
    }
    forall i | 0 <= i < |cs|
      ensures HeaderOk(cs, mem', i)
    {
      if i < |bs| {
        assert HeaderOk(bs, mem, i);
        Ordered(bs, brk, i, |bs|);
      }
    }
  }

  /** kfree, first part: insert block `k` between its free neighbours. */
  lemma {:induction false} InsertLinked(bs: seq<Block>, brk: int, mem: Memory, head: int, k: nat, p: int)
    requires Tiled(bs, brk) && Shaped(bs) && Linked(bs, mem, head)
    requires k < |bs| && !bs[k].free && PrevFree(bs, k, p)
    ensures var m1 := mem[bs[k].addr := bs[k].size + 1][bs[k].addr + 8 := NextAddr(bs, k + 1)];
      Linked(SetFree(bs, k), LinkMem(bs, m1, p, bs[k].addr), LinkHead(head, p, bs[k].addr))
  {
    var m1 := mem[bs[k].addr := bs[k].size + 1][bs[k].addr + 8 := NextAddr(bs, k + 1)];
    var mem' := LinkMem(bs, m1, p, bs[k].addr);
    var cs := SetFree(bs, k);
    forall i | 0 <= i < |cs|
      ensures HeaderOk(cs, mem', i)
    {
      assert HeaderOk(bs, mem, i);
      if p >= 0 && i != p {
        HeadersApart(bs, brk, i, p);
      }
      if i != k {
        HeadersApart(bs, brk, i, k);
      }
      NextAddrInserted(bs, k, p, i + 1);
    }
    NextAddrInserted(bs, k, p, 0);
  }

  lemma {:induction false} NextAddrInserted(bs: seq<Block>, k: nat, p: int, i: nat)
    requires k < |bs| && !bs[k].free && PrevFree(bs, k, p) && i <= |bs|
    ensures NextAddr(SetFree(bs, k), i) == if p < i <= k then bs[k].addr else NextAddr(bs, i)
  {
    var cs := SetFree(bs, k);
    if i > k {
      NextAddrSuffix(bs, i, cs, i);
    } else if i > p {
      FirstFreeIs(cs, i, k);
    } else {
      NextAddrPrefix(bs, cs, i, p);
    }
  }

  /** heap_coalesce: the joined block takes over the second one's link. */
  lemma {:induction false} MergeLinked(bs: seq<Block>, brk: int, mem: Memory, head: int, i: nat)
    requires Tiled(bs, brk) && Shaped(bs) && Linked(bs, mem, head)
    requires Mergeable(bs, i)
    ensures Linked(Merge(bs, i),
                   mem[bs[i].addr := bs[i].size + bs[i + 1].size + 1][bs[i].addr + 8 := NextAddr(bs, i + 2)],
                   head)
  {
    var mem' := mem[bs[i].addr := bs[i].size + bs[i + 1].size + 1][bs[i].addr + 8 := NextAddr(bs, i + 2)];
    var cs := Merge(bs, i);
    assert Halved(cs, bs, i);
    NextAddrHalved(cs, bs, i, i + 1);
    forall k | 0 <= k < |cs| && k != i
      ensures SameHeader(cs[k], mem, mem')
    {
      var was := if k < i then k else k + 1;
      assert cs[k] == bs[was] && HeaderOk(bs, mem, was);
      HeadersApart(bs, brk, was, i);
    }
    MergedLinked(cs, mem, bs, mem', head, i);
  }

  /** heap_shrink: unlink the free block at the end. */
  lemma {:induction false} DropLinked(bs: seq<Block>, brk: int, mem: Memory, head: int, p: int)
    requires Tiled(bs, brk) && Shaped(bs) && Linked(bs, mem, head)
    requires |bs| > 0 && bs[|bs| - 1].free && PrevFree(bs, |bs| - 1, p)
    ensures Linked(bs[..|bs| - 1], LinkMem(bs, mem, p, 0), LinkHead(head, p, 0))
  {
    var n := |bs| - 1;
    var cs := bs[..n];
    var mem' := LinkMem(bs, mem, p, 0);
    FirstFreeIs(cs, p + 1, n);
    forall i | 0 <= i < n
      ensures HeaderOk(cs, mem', i)
    {
      assert HeaderOk(bs, mem, i);
      if i < p {
        HeadersApart(bs, brk, i, p);
        NextAddrPrefix(bs, cs, i + 1, p);
      } else if i > p {
        if p >= 0 {
          HeadersApart(bs, brk, i, p);
        }
      }
    }
    if p >= 0 {
      NextAddrPrefix(bs, cs, 0, p);
    }
  }

  /** Words outside every header do not matter to the list. */
  lemma {:induction false} LinkedFrame(bs: seq<Block>, mem: Memory, mem': Memory, head: int)
    requires Linked(bs, mem, head)
    requires forall i :: 0 <= i < |bs| ==> SameHeader(bs[i], mem, mem')
    ensures Linked(bs, mem', head)
  {
    forall i | 0 <= i < |bs|
      ensures HeaderOk(bs, mem', i)
    {
      assert HeaderOk(bs, mem, i) && SameHeader(bs[i], mem, mem');
    }
  }
}
