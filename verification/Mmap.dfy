/**
 The mmap region table of a process: 32 slots, each a page-aligned range with its protection,
 flags, file and file offset.
 */
module Mmap {

  const PAGE := 4096
  const SLOTS := 32
  const USER_BASE := 0x0800_0000
  const USER_TOP := 0x7FFF_FFFF_F000
  const MMAP_START := 0x5000_0000
  const WORDS := 0x1_0000_0000_0000_0000

  datatype Option<+T> = None | Some(value: T)

  /** The PROT bits; `stray` stands for any bit outside the three. */
  datatype Prot = Prot(read: bool, write: bool, exec: bool, stray: bool)

  /** The MAP bits the calls look at, and the other ones. */
  datatype Flags = Flags(private: bool, shared: bool, fixed: bool, anonymous: bool, others: int)

  datatype Region = Region(used: bool, start: int, len: int, prot: Prot, flags: Flags, vnode: Option<int>, offset: int)

  type Slots = seq<Region>

  predicate Aligned(x: int) {
    x % PAGE == 0
  }

  lemma {:induction false} AlignedDifference(x: int, y: int)
    requires Aligned(x) && Aligned(y)
    ensures Aligned(x - y) && Aligned(x + y)
  {
    var a, b := x / PAGE, y / PAGE;
    assert x == PAGE * a && y == PAGE * b;
    WholePages(a - b);
    WholePages(a + b);
  }

  lemma {:induction false} WholePages(k: int)
    ensures Aligned(PAGE * k)
  {
  }

  function End(r: Region): int {
    r.start + r.len
  }

  /** What an address is backed by: an anonymous page has no file offset. */
  datatype Backing = Backing(prot: Prot, flags: Flags, file: Option<(int, int)>)

  ghost predicate At(r: Region, a: int, b: Backing) {
    && r.used && r.start <= a < End(r)
    && b == Backing(r.prot, r.flags, if r.vnode.None? then None else Some((r.vnode.value, r.offset + (a - r.start))))
  }

  ghost predicate Means(slots: Slots, a: int, b: Backing) {
    exists i :: 0 <= i < |slots| && At(slots[i], a, b)
  }

  predicate RegionOk(r: Region) {
    r.used ==>
      && Aligned(r.start) && Aligned(r.len) && r.len > 0 && USER_BASE <= r.start && End(r) <= USER_TOP
      && !(r.prot.write && r.prot.exec)
  }

  predicate Apart(r: Region, s: Region) {
    r.used && s.used ==> End(r) <= s.start || End(s) <= r.start
  }

  ghost predicate TableOk(slots: Slots) {
    && |slots| == SLOTS
    && (forall i :: 0 <= i < SLOTS ==> RegionOk(slots[i]))
    && (forall i, j :: 0 <= i < j < SLOTS ==> Apart(slots[i], slots[j]))
  }

  predicate Overlaps(r: Region, lo: int, hi: int) {
    r.used && lo < End(r) && hi > r.start
  }

  /** The range lies inside the region with something left on both sides. */
  predicate Inside(r: Region, lo: int, hi: int) {
    r.used && r.start < lo && hi < End(r)
  }

  function Freed(r: Region): Region {
    r.(used := false, vnode := None)
  }

  function Head(r: Region, lo: int): Region {
    r.(len := lo - r.start)
  }

  function Tail(r: Region, hi: int, advance: bool): Region {
    r.(start := hi, len := End(r) - hi, offset := r.offset + (if advance then hi - r.start else 0))
  }

  /** What is left of a region when [lo, hi) is taken out of it at an end, or the head if it is taken out inside. */
  function Trim(r: Region, lo: int, hi: int, advance: bool): Region {
    if !Overlaps(r, lo, hi) then r
    else if lo <= r.start && End(r) <= hi then Freed(r)
    else if lo <= r.start then Tail(r, hi, advance)
    else Head(r, lo)
  }

  lemma {:induction false} TrimOk(r: Region, lo: int, hi: int, advance: bool)
    requires RegionOk(r) && Aligned(lo) && Aligned(hi) && lo < hi
    ensures RegionOk(Trim(r, lo, hi, advance)) && !Overlaps(Trim(r, lo, hi, advance), lo, hi)
    ensures var t := Trim(r, lo, hi, advance); t.used ==> r.used && r.start <= t.start && End(t) <= End(r)
  {
    hide Aligned;
    if r.used {
      AlignedDifference(r.start, r.len);
      AlignedDifference(End(r), hi);
      AlignedDifference(lo, r.start);
    }
  }

  lemma {:induction false} TrimMeaning(r: Region, lo: int, hi: int, a: int, b: Backing)
    requires lo < hi && !Inside(r, lo, hi)
    ensures At(Trim(r, lo, hi, true), a, b) <==> At(r, a, b) && !(lo <= a < hi)
  {
  }

  lemma {:induction false} SplitMeaning(r: Region, lo: int, hi: int, a: int, b: Backing)
    requires lo < hi && Inside(r, lo, hi)
    ensures At(Head(r, lo), a, b) <==> At(r, a, b) && a < lo
    ensures At(Tail(r, hi, true), a, b) <==> At(r, a, b) && a >= hi
  {
  }

  /** An address has at most one meaning. */
  lemma {:induction false} OneMeaning(slots: Slots, a: int, b: Backing, c: Backing)
    requires TableOk(slots) && Means(slots, a, b) && Means(slots, a, c)
    ensures b == c
  {
    var i :| 0 <= i < |slots| && At(slots[i], a, b);
    var j :| 0 <= j < |slots| && At(slots[j], a, c);
  }

  predicate FirstFree(slots: Slots, j: nat) {
    j < |slots| && !slots[j].used && forall k :: 0 <= k < j ==> slots[k].used
  }

  predicate Full(slots: Slots) {
    forall k :: 0 <= k < |slots| ==> slots[k].used
  }

  /** The table after the range was taken out of the inside of region i: without a free slot the tail goes too. */
  ghost predicate SplitAt(slots: Slots, slots': Slots, i: nat, lo: int, hi: int, keepHead: bool)
    requires i < |slots|
  {
    var head := Head(slots[i], lo);
    && (forall j: nat :: FirstFree(slots, j) ==> slots' == slots[j := Tail(slots[i], hi, true)][i := head])
    && (Full(slots) ==> slots' == slots[i := if keepHead then head else Freed(slots[i])])
  }

  ghost predicate Trimmed(slots: Slots, slots': Slots, n: nat, lo: int, hi: int, advance: bool) {
    && |slots'| == |slots| && n <= |slots|
    && (forall k :: 0 <= k < n ==> slots'[k] == Trim(slots[k], lo, hi, advance))
    && (forall k :: n <= k < |slots| ==> slots'[k] == slots[k])
  }

  lemma {:induction false} FreeOrFull(slots: Slots, j: Option<nat>)
    requires j.Some? ==> FirstFree(slots, j.value)
    requires j.None? ==> Full(slots)
    ensures forall k: nat :: FirstFree(slots, k) <==> j == Some(k)
    ensures Full(slots) <==> j.None?
  {
    forall k: nat | FirstFree(slots, k) ensures j == Some(k) {
      if j.Some? {
        var m := j.value;
        assert !(k < m) && !(m < k);
      }
    }
  }

  /** If the range lies inside one region it meets no other. */
  lemma {:induction false} InsideAlone(slots: Slots, i: nat, k: nat, lo: int, hi: int)
    requires TableOk(slots) && i < SLOTS && k < SLOTS && k != i && Inside(slots[i], lo, hi) && lo < hi
    ensures !Overlaps(slots[k], lo, hi)
  {
    if i < k {
      assert Apart(slots[i], slots[k]);
    } else {
      assert Apart(slots[k], slots[i]);
    }
  }

  /** How the loops of sys_mmap and sys_munmap leave the table: trimmed everywhere, or split in one place. */
  ghost predicate Cut(slots: Slots, slots': Slots, lo: int, hi: int, advance: bool, keepHead: bool) {
    if i: nat :| i < |slots| && Inside(slots[i], lo, hi) then SplitAt(slots, slots', i, lo, hi, keepHead)
    else Trimmed(slots, slots', |slots|, lo, hi, advance)
  }

  lemma {:induction false} CutIsSplit(slots: Slots, slots': Slots, i: nat, lo: int, hi: int, advance: bool,
                                      keepHead: bool)
    requires TableOk(slots) && i < SLOTS && Inside(slots[i], lo, hi) && lo < hi
    ensures Cut(slots, slots', lo, hi, advance, keepHead) <==> SplitAt(slots, slots', i, lo, hi, keepHead)
  {
    forall k: nat | k < SLOTS && Inside(slots[k], lo, hi) ensures k == i {
      if k != i {
        InsideAlone(slots, i, k, lo, hi);
      }
    }
  }

  ghost predicate AnyInside(slots: Slots, lo: int, hi: int) {
    exists i: nat :: i < |slots| && Inside(slots[i], lo, hi)
  }

  // ----- The table stays well formed -----

  lemma {:induction false} TrimmedOk(slots: Slots, slots': Slots, lo: int, hi: int, advance: bool)
    requires TableOk(slots) && Aligned(lo) && Aligned(hi) && lo < hi && Trimmed(slots, slots', SLOTS, lo, hi, advance)
    ensures TableOk(slots') && forall k :: 0 <= k < SLOTS ==> !Overlaps(slots'[k], lo, hi)
  {
    hide Aligned, Trim;
    forall k | 0 <= k < SLOTS
      ensures RegionOk(slots'[k]) && !Overlaps(slots'[k], lo, hi)
      ensures slots'[k].used ==> slots[k].used && slots[k].start <= slots'[k].start && End(slots'[k]) <= End(slots[k])
    {
      TrimOk(slots[k], lo, hi, advance);
    }
    forall i, j | 0 <= i < j < SLOTS ensures Apart(slots'[i], slots'[j]) {
      assert Apart(slots[i], slots[j]);
    }
  }

  lemma {:induction false} SplitOk(slots: Slots, slots': Slots, i: nat, lo: int, hi: int, keepHead: bool,
                                   j: Option<nat>)
    requires TableOk(slots) && Aligned(lo) && Aligned(hi) && lo < hi && i < SLOTS && Inside(slots[i], lo, hi)
    requires SplitAt(slots, slots', i, lo, hi, keepHead)
    requires (j.Some? ==> FirstFree(slots, j.value)) && (j.None? ==> Full(slots))
    ensures TableOk(slots') && forall k :: 0 <= k < SLOTS ==> !Overlaps(slots'[k], lo, hi)
  {
    hide Aligned;
    var r := slots[i];
    AlignedDifference(r.start, r.len);
    AlignedDifference(End(r), hi);
    AlignedDifference(lo, r.start);
    forall k: nat | k < SLOTS && k != i
      ensures !Overlaps(slots[k], lo, hi)
      ensures slots[k].used ==> End(slots[k]) <= r.start || End(r) <= slots[k].start
    {
      InsideAlone(slots, i, k, lo, hi);
      assert Apart(slots[if i < k then i else k], slots[if i < k then k else i]);
    }
    forall k, m | 0 <= k < m < SLOTS ensures Apart(slots'[k], slots'[m]) {
      assert Apart(slots[k], slots[m]);
    }
  }

  // ----- What every address means -----

  function FreeFrom(slots: Slots, k: nat): (j: Option<nat>)
    requires k <= |slots| && forall i :: 0 <= i < k ==> slots[i].used
    ensures j.Some? ==> FirstFree(slots, j.value)
    ensures j.None? ==> Full(slots)
    decreases |slots| - k
  {
    if k == |slots| then None else if !slots[k].used then Some(k) else FreeFrom(slots, k + 1)
  }

  /** The addresses behind the range that a split without a free slot gives up. */
  ghost predicate LostTail(slots: Slots, lo: int, hi: int, a: int) {
    Full(slots) && exists i: nat :: i < |slots| && Inside(slots[i], lo, hi) && hi <= a < End(slots[i])
  }

  lemma {:induction false} TrimmedMeaning(slots: Slots, slots': Slots, lo: int, hi: int, a: int, b: Backing)
    requires TableOk(slots) && lo < hi && !AnyInside(slots, lo, hi) && Trimmed(slots, slots', SLOTS, lo, hi, true)
    ensures Means(slots', a, b) <==> Means(slots, a, b) && !(lo <= a < hi)
  {
    forall k | 0 <= k < SLOTS ensures At(slots'[k], a, b) <==> At(slots[k], a, b) && !(lo <= a < hi) {
      assert !Inside(slots[k as nat], lo, hi);
      TrimMeaning(slots[k], lo, hi, a, b);
    }
    hide At, Trim;
    if Means(slots', a, b) {
      var k :| 0 <= k < SLOTS && At(slots'[k], a, b);
      assert At(slots[k], a, b);
    }
    if Means(slots, a, b) && !(lo <= a < hi) {
      var k :| 0 <= k < SLOTS && At(slots[k], a, b);
      assert At(slots'[k], a, b);
    }
  }

  lemma {:induction false} SplitMeans(slots: Slots, slots': Slots, i: nat, lo: int, hi: int, keepHead: bool, a: int,
                                      b: Backing)
    requires TableOk(slots) && lo < hi && i < SLOTS && Inside(slots[i], lo, hi) &&
      SplitAt(slots, slots', i, lo, hi, keepHead)
    ensures !Full(slots) ==> (Means(slots', a, b) <==> Means(slots, a, b) && !(lo <= a < hi))
    ensures Full(slots) && keepHead ==> (Means(slots', a, b) <==> Means(slots, a, b) && !(lo <= a < End(slots[i])))
    ensures Full(slots) && !keepHead ==>
      (Means(slots', a, b) <==> Means(slots, a, b) && !(slots[i].start <= a < End(slots[i])))
  {
    var j := FreeFrom(slots, 0);
    FreeOrFull(slots, j);
    SplitMeaning(slots[i], lo, hi, a, b);
    forall k: nat | k < SLOTS && k != i && At(slots[k], a, b)
      ensures !(slots[i].start <= a < End(slots[i]))
    {
      assert Apart(slots[if i < k then i else k], slots[if i < k then k else i]);
    }
    if Means(slots', a, b) {
      var k :| 0 <= k < SLOTS && At(slots'[k], a, b);
      assert At(slots[k], a, b) || At(slots[i], a, b);
    }
    if Means(slots, a, b) {
      var k :| 0 <= k < SLOTS && At(slots[k], a, b);
      assert k != i ==> At(slots'[k], a, b);
      if j.Some? {
        assert slots'[i] == Head(slots[i], lo) && slots'[j.value] == Tail(slots[i], hi, true);
      }
    }
  }

  /** MAP_FIXED takes away the range, and nothing else but the tail of a split that finds no slot. */
  lemma {:induction false} ReplaceMeaning(slots: Slots, slots': Slots, lo: int, hi: int, a: int, b: Backing)
    requires TableOk(slots) && lo < hi && Cut(slots, slots', lo, hi, true, true)
    ensures Means(slots', a, b) <==> Means(slots, a, b) && !(lo <= a < hi) && !LostTail(slots, lo, hi, a)
  {
    if i: nat :| i < SLOTS && Inside(slots[i], lo, hi) {
      CutIsSplit(slots, slots', i, lo, hi, true, true);
      SplitMeans(slots, slots', i, lo, hi, true, a, b);
      forall k: nat | k < SLOTS && Inside(slots[k], lo, hi) ensures k == i {
        if k != i {
          InsideAlone(slots, i, k, lo, hi);
        }
      }
    } else {
      TrimmedMeaning(slots, slots', lo, hi, a, b);
    }
  }

  ghost predicate SameOutside(slots: Slots, slots': Slots, lo: int, hi: int) {
    forall a, b :: !(lo <= a < hi) ==> (Means(slots', a, b) <==> Means(slots, a, b))
  }

  /** A file mapping that loses its front and keeps the rest. */
  predicate FrontFile(r: Region, lo: int, hi: int) {
    r.used && r.vnode.Some? && lo <= r.start < hi < End(r)
  }

  ghost predicate AnyFrontFile(slots: Slots, lo: int, hi: int) {
    exists i: nat :: i < |slots| && FrontFile(slots[i], lo, hi)
  }

  lemma {:induction false} PlainTrimmedMeaning(slots: Slots, slots': Slots, lo: int, hi: int, a: int, b: Backing)
    requires TableOk(slots) && lo < hi && !AnyInside(slots, lo, hi) && !AnyFrontFile(slots, lo, hi)
    requires Trimmed(slots, slots', SLOTS, lo, hi, false)
    ensures Means(slots', a, b) <==> Means(slots, a, b) && !(lo <= a < hi)
  {
    forall k: nat | k < SLOTS ensures At(slots'[k], a, b) <==> At(slots[k], a, b) && !(lo <= a < hi) {
      assert !Inside(slots[k], lo, hi) && !FrontFile(slots[k], lo, hi);
      TrimMeaning(slots[k], lo, hi, a, b);
    }
    hide At, Trim;
    if Means(slots', a, b) {
      var k: nat :| k < SLOTS && At(slots'[k], a, b);
      assert At(slots[k], a, b);
    }
    if Means(slots, a, b) && !(lo <= a < hi) {
      var k: nat :| k < SLOTS && At(slots[k], a, b);
      assert At(slots'[k], a, b);
    }
  }

  /** The rest of a file mapping cut at the front by sys_munmap shows the wrong part of the file. */
  lemma {:induction false} FrontShows(slots: Slots, slots': Slots, i: nat, lo: int, hi: int)
    requires TableOk(slots) && TableOk(slots') && i < SLOTS && FrontFile(slots[i], lo, hi)
    requires Trimmed(slots, slots', SLOTS, lo, hi, false)
    ensures !SameOutside(slots, slots', lo, hi)
  {
    var r := slots[i];
    var right := Backing(r.prot, r.flags, Some((r.vnode.value, r.offset + (hi - r.start))));
    var wrong := Backing(r.prot, r.flags, Some((r.vnode.value, r.offset)));
    assert At(r, hi, right) && Means(slots, hi, right);
    assert At(slots'[i], hi, wrong) && Means(slots', hi, wrong);
    if Means(slots', hi, right) {
      OneMeaning(slots', hi, right, wrong);
    }
  }

  /** A head that has no slot to its tail is given up with it. */
  lemma {:induction false} HeadShows(slots: Slots, slots': Slots, i: nat, lo: int, hi: int)
    requires TableOk(slots) && lo < hi && i < SLOTS && Inside(slots[i], lo, hi) && Full(slots)
    requires SplitAt(slots, slots', i, lo, hi, false)
    ensures !SameOutside(slots, slots', lo, hi)
  {
    var r := slots[i];
    var b := Backing(r.prot, r.flags, if r.vnode.None? then None else Some((r.vnode.value, r.offset)));
    assert At(r, r.start, b) && Means(slots, r.start, b);
    SplitMeans(slots, slots', i, lo, hi, false, r.start, b);
  }

  /**
   sys_munmap leaves every page outside its range as it was exactly when it cuts no file mapping at
   the front and does not split a region of a full table.  The range itself is always unmapped.
   */
  lemma {:induction false} UnmapRightIff(slots: Slots, slots': Slots, lo: int, hi: int)
    requires TableOk(slots) && Aligned(lo) && Aligned(hi) && lo < hi && Cut(slots, slots', lo, hi, false, false)
    ensures SameOutside(slots, slots', lo, hi) <==>
      !AnyFrontFile(slots, lo, hi) && !(Full(slots) && AnyInside(slots, lo, hi))
    ensures forall a, b :: lo <= a < hi ==> !Means(slots', a, b)
  {
    hide Aligned, At, Trim;
    if i: nat :| i < SLOTS && Inside(slots[i], lo, hi) {
      CutIsSplit(slots, slots', i, lo, hi, false, false);
      forall a, b ensures !Full(slots) ==> (Means(slots', a, b) <==> Means(slots, a, b) && !(lo <= a < hi))
                  ensures lo <= a < hi ==> !Means(slots', a, b) {
        SplitMeans(slots, slots', i, lo, hi, false, a, b);
      }
      if Full(slots) {
        HeadShows(slots, slots', i, lo, hi);
      }
      forall k: nat | k < SLOTS ensures !FrontFile(slots[k], lo, hi) {
        if k != i {
          InsideAlone(slots, i, k, lo, hi);
        }
      }
    } else {
      UnmapTrimmed(slots, slots', lo, hi);
    }
  }

  lemma {:induction false} UnmapTrimmed(slots: Slots, slots': Slots, lo: int, hi: int)
    requires TableOk(slots) && Aligned(lo) && Aligned(hi) && lo < hi && !AnyInside(slots, lo, hi)
    requires Trimmed(slots, slots', SLOTS, lo, hi, false)
    ensures SameOutside(slots, slots', lo, hi) <==> !AnyFrontFile(slots, lo, hi)
    ensures forall a, b :: lo <= a < hi ==> !Means(slots', a, b)
  {
    hide Aligned, Trim;
    TrimmedOk(slots, slots', lo, hi, false);
    if i: nat :| i < SLOTS && FrontFile(slots[i], lo, hi) {
      FrontShows(slots, slots', i, lo, hi);
    } else {
      forall a, b ensures Means(slots', a, b) <==> Means(slots, a, b) && !(lo <= a < hi) {
        PlainTrimmedMeaning(slots, slots', lo, hi, a, b);
      }
    }
  }

  /** A new region in a free slot, over a range nothing overlaps. */
  lemma {:induction false} AddMeaning(slots: Slots, j: nat, r: Region)
    requires TableOk(slots) && j < SLOTS && !slots[j].used && RegionOk(r) && r.used
    requires forall k :: 0 <= k < SLOTS ==> !Overlaps(slots[k], r.start, End(r))
    ensures TableOk(slots[j := r])
    ensures forall a, b :: Means(slots[j := r], a, b) <==> At(r, a, b) || Means(slots, a, b)
  {
    var slots' := slots[j := r];
    forall k, m | 0 <= k < m < SLOTS ensures Apart(slots'[k], slots'[m]) {
      assert Apart(slots[k], slots[m]);
    }
    forall a, b ensures Means(slots', a, b) <==> At(r, a, b) || Means(slots, a, b) {
      if Means(slots', a, b) {
        var k :| 0 <= k < SLOTS && At(slots'[k], a, b);
        assert k == j || At(slots[k], a, b);
      }
      if At(r, a, b) {
        assert At(slots'[j], a, b);
      }
      if Means(slots, a, b) {
        var k :| 0 <= k < SLOTS && At(slots[k], a, b);
        assert At(slots'[k], a, b);
      }
    }
  }

  /** A full table that is split stays full. */
  lemma {:induction false} FullStaysFull(slots: Slots, slots': Slots, lo: int, hi: int)
    requires TableOk(slots) && lo < hi && Cut(slots, slots', lo, hi, true, true) && Full(slots) &&
      AnyInside(slots, lo, hi)
    ensures Full(slots')
  {
    var i: nat :| i < SLOTS && Inside(slots[i], lo, hi);
    CutIsSplit(slots, slots', i, lo, hi, true, true);
  }

  lemma {:induction false} CutOk(slots: Slots, slots': Slots, lo: int, hi: int, advance: bool, keepHead: bool)
    requires TableOk(slots) && Aligned(lo) && Aligned(hi) && lo < hi && Cut(slots, slots', lo, hi, advance, keepHead)
    ensures TableOk(slots') && forall k :: 0 <= k < SLOTS ==> !Overlaps(slots'[k], lo, hi)
    ensures forall cursor :: Below(slots, cursor) ==> Below(slots', cursor)
  {
    hide Aligned;
    if i: nat :| i < SLOTS && Inside(slots[i], lo, hi) {
      CutIsSplit(slots, slots', i, lo, hi, advance, keepHead);
      SplitOk(slots, slots', i, lo, hi, keepHead, FreeFrom(slots, 0));
    } else {
      TrimmedOk(slots, slots', lo, hi, advance);
    }
  }

  // ----- References to files -----

  function Of(r: Region): multiset<int> {
    if r.used && r.vnode.Some? then multiset{r.vnode.value} else multiset{}
  }

  /** How many used slots name vnode `v`. */
  ghost function Named(slots: Slots, v: int): int {
    if slots == [] then 0 else Named(slots[..|slots| - 1], v) + Of(slots[|slots| - 1])[v]
  }

  /** One reference for every used slot with a file, and some `extra` ones. */
  ghost predicate Balanced(refs: multiset<int>, slots: Slots, extra: multiset<int>) {
    forall v :: refs[v] == Named(slots, v) + extra[v]
  }

  lemma {:induction false} NamedUpdate(slots: Slots, i: nat, r: Region, v: int)
    requires i < |slots|
    ensures Named(slots[i := r], v) == Named(slots, v) - Of(slots[i])[v] + Of(r)[v] &&
      Named(slots, v) >= Of(slots[i])[v]
  {
    var n := |slots| - 1;
    NamedPositive(slots[..n], v);
    if i == n {
      assert slots[i := r][..n] == slots[..n];
    } else {
      NamedUpdate(slots[..n], i, r, v);
      assert slots[i := r][..n] == slots[..n][i := r];
    }
  }

  lemma {:induction false} NamedPositive(slots: Slots, v: int)
    ensures Named(slots, v) >= 0
  {
    if slots != [] {
      NamedPositive(slots[..|slots| - 1], v);
    }
  }

  lemma {:induction false} NoneNamed(slots: Slots, v: int)
    requires forall i :: 0 <= i < |slots| ==> !slots[i].used
    ensures Named(slots, v) == 0
  {
    if slots != [] {
      NoneNamed(slots[..|slots| - 1], v);
    }
  }

  lemma {:induction false} SameFile(refs: multiset<int>, slots: Slots, extra: multiset<int>, i: nat, r: Region)
    requires i < |slots| && Balanced(refs, slots, extra) && Of(r) == Of(slots[i])
    ensures Balanced(refs, slots[i := r], extra)
  {
    forall v ensures refs[v] == Named(slots[i := r], v) + extra[v] {
      NamedUpdate(slots, i, r, v);
    }
  }

  lemma {:induction false} GivesBack(refs: multiset<int>, slots: Slots, extra: multiset<int>, i: nat)
    requires i < |slots| && Balanced(refs, slots, extra)
    ensures Balanced(refs - Of(slots[i]), slots[i := Freed(slots[i])], extra)
  {
    forall v ensures (refs - Of(slots[i]))[v] == Named(slots[i := Freed(slots[i])], v) + extra[v] {
      NamedUpdate(slots, i, Freed(slots[i]), v);
    }
  }

  lemma {:induction false} Takes(refs: multiset<int>, slots: Slots, extra: multiset<int>, i: nat, r: Region)
    requires i < |slots| && Balanced(refs, slots, extra) && !slots[i].used
    ensures Balanced(refs + Of(r), slots[i := r], extra)
  {
    forall v ensures (refs + Of(r))[v] == Named(slots[i := r], v) + extra[v] {
      NamedUpdate(slots, i, r, v);
    }
  }

  /** A slot takes over a reference that belonged to none. */
  lemma {:induction false} Adopts(refs: multiset<int>, slots: Slots, extra: multiset<int>, i: nat, r: Region)
    requires i < |slots| && Balanced(refs, slots, extra + Of(r)) && !slots[i].used
    ensures Balanced(refs, slots[i := r], extra)
  {
    forall v ensures refs[v] == Named(slots[i := r], v) + extra[v] {
      NamedUpdate(slots, i, r, v);
    }
  }

  ghost predicate Below(slots: Slots, cursor: int) {
    forall i :: 0 <= i < |slots| && slots[i].used ==> End(slots[i]) <= cursor
  }

  class RegionTable {
    var slots: Slots
    var cursor: int

    /** The vnode references taken and not yet given back. */
    var refs: multiset<int>

    /** Those that belong to no slot. */
    ghost var extra: multiset<int>

    ghost predicate Valid()
      reads this
    {
      && TableOk(slots) && Balanced(refs, slots, extra)
      && Aligned(cursor) && MMAP_START <= cursor <= USER_TOP && Below(slots, cursor)
    }

    /** mmap_region_find. */
    method FindRegion(a: int) returns (i: Option<nat>)
      requires Valid()
      ensures i.Some? ==> i.value < |slots| && slots[i.value].used && slots[i.value].start <= a < End(slots[i.value])
      ensures i.None? ==> forall b :: !Means(slots, a, b)
    {
      for k := 0 to SLOTS
        invariant forall m :: 0 <= m < k ==> !(slots[m].used && slots[m].start <= a < End(slots[m]))
      {
        if slots[k].used && a >= slots[k].start && a < slots[k].start + slots[k].len {
          return Some(k);
        }
      }
      return None;
    }

    /** region_slot_alloc. */
    method AllocSlot() returns (j: Option<nat>)
      ensures j.Some? ==> FirstFree(slots, j.value)
      ensures j.None? ==> Full(slots)
    {
      for k := 0 to |slots|
        invariant forall m :: 0 <= m < k ==> slots[m].used
      {
        if !slots[k].used {
          return Some(k);
        }
      }
      return None;
    }

    /** One region of the loops of sys_mmap and sys_munmap that overlaps the range. */
    method CutOne(i: nat, lo: int, hi: int, advance: bool, keepHead: bool)
      requires i < |slots| && Overlaps(slots[i], lo, hi) && Balanced(refs, slots, extra) && lo < hi
      modifies this`slots, this`refs
      ensures Balanced(refs, slots, extra) && |slots| == |old(slots)|
      ensures !Inside(old(slots)[i], lo, hi) ==> slots == old(slots)[i := Trim(old(slots)[i], lo, hi, advance)]
      ensures Inside(old(slots)[i], lo, hi) ==> SplitAt(old(slots), slots, i, lo, hi, keepHead)
    {
      hide Balanced;
      var r := slots[i];
      var oend := r.start + r.len;
      var ustart := if lo > r.start then lo else r.start;
      var uend := if hi < oend then hi else oend;
      if ustart == r.start && uend == oend {
        GivesBack(refs, slots, extra, i);
        slots, refs := slots[i := Freed(r)], refs - Of(r);
      } else if ustart == r.start {
        SameFile(refs, slots, extra, i, Tail(r, uend, advance));
        slots := slots[i := Tail(r, uend, advance)];
      } else if uend == oend {
        SameFile(refs, slots, extra, i, Head(r, ustart));
        slots := slots[i := Head(r, ustart)];
      } else {
        Split(i, ustart, uend, keepHead);
      }
    }

    method Split(i: nat, lo: int, hi: int, keepHead: bool)
      requires i < |slots| && Inside(slots[i], lo, hi) && Balanced(refs, slots, extra) && lo < hi
      modifies this`slots, this`refs
      ensures |slots| == |old(slots)|
      ensures Balanced(refs, slots, extra) && SplitAt(old(slots), slots, i, lo, hi, keepHead)
    {
      hide Balanced;
      var r := slots[i];
      var j := AllocSlot();
      FreeOrFull(slots, j);
      if j.Some? {
        Takes(refs, slots, extra, j.value, Tail(r, hi, true));
        slots, refs := slots[j.value := Tail(r, hi, true)], refs + Of(r);
      } else if !keepHead {
        GivesBack(refs, slots, extra, i);
        slots, refs := slots[i := Freed(r)], refs - Of(r);
        return;
      }
      SameFile(refs, slots, extra, i, Head(r, lo));
      slots := slots[i := Head(r, lo)];
    }

    /**
     The loop over the slots in sys_mmap, which advances offsets and keeps heads, and in sys_munmap,
     which does neither.
     */
    method CutRange(lo: int, hi: int, advance: bool, keepHead: bool)
      requires TableOk(slots) && lo < hi && Balanced(refs, slots, extra)
      modifies this`slots, this`refs
      ensures Balanced(refs, slots, extra) && Cut(old(slots), slots, lo, hi, advance, keepHead)
    {
      hide Balanced, Trim, Aligned;
      var i: nat := 0;
      ghost var mid: Option<nat> := None;
      while i < SLOTS
        invariant i <= SLOTS == |slots| && Balanced(refs, slots, extra)
        invariant mid.None? ==> Trimmed(old(slots), slots, i, lo, hi, advance)
        invariant mid.None? ==> forall k :: 0 <= k < i ==> !Inside(old(slots)[k], lo, hi)
        invariant mid.Some? ==> mid.value < i && Inside(old(slots)[mid.value], lo, hi)
        invariant mid.Some? ==> SplitAt(old(slots), slots, mid.value, lo, hi, keepHead)
      {
        if Overlaps(slots[i], lo, hi) {
          if mid.Some? {
            AfterSplit(old(slots), slots, mid.value, i, lo, hi, keepHead);
          }
          if Inside(slots[i], lo, hi) {
            BeforeSplit(old(slots), slots, i, lo, hi, advance);
            mid := Some(i);
          }
          CutOne(i, lo, hi, advance, keepHead);
        } else if mid.None? {
          Untouched(old(slots)[i], lo, hi, advance);
        }
        i := i + 1;
      }
      if mid.Some? {
        CutIsSplit(old(slots), slots, mid.value, lo, hi, advance, keepHead);
      }
    }

    /** A fixed mapping first replaces what its range held; any other one finds its range empty. */
    method Replace(r: Region)
      requires Valid() && RegionOk(r) && r.used && Aligned(End(r)) && (!r.flags.fixed ==> r.start == cursor)
      modifies this`slots, this`refs
      ensures Valid() && forall k :: 0 <= k < SLOTS ==> !Overlaps(slots[k], r.start, End(r))
      ensures Replaced(old(slots), slots, r)
    {
      hide Aligned, Balanced, Cut;
      if r.flags.fixed {
        CutRange(r.start, r.start + r.len, true, true);
        CutOk(old(slots), slots, r.start, r.start + r.len, true, true);
      }
    }

    /**
     The part of sys_mmap behind its checks: a fixed mapping replaces what the range held, and the
     new region is recorded if there is a slot for it.
     */
    method Place(r: Region) returns (ok: bool, ghost cut: Slots)
      requires Valid() && RegionOk(r) && r.used && Aligned(End(r)) && Of(r) <= extra
      requires (!r.flags.fixed ==> r.start == cursor) && End(r) <= USER_TOP
      modifies this
      ensures Valid() && extra == old(extra) - Of(r)
      ensures Replaced(old(slots), cut, r) && (ok <==> !Full(cut))
      ensures !ok ==> slots == cut && cursor == old(cursor)
      ensures ok ==> cursor == (if End(r) > old(cursor) then End(r) else old(cursor)) && Changed(old(slots), slots, r)
    {
      hide Aligned, Balanced, At, Replaced, RegionOk, Apart, Changed, Of;
      Replace(r);
      cut := slots;
      extra := extra - Of(r);
      assert extra + Of(r) == old(extra);
      var j := AllocSlot();
      FreeOrFull(slots, j);
      ok := j.Some?;
      if ok {
        Adopts(refs, slots, extra, j.value, r);
        AddMeaning(slots, j.value, r);
        Placed(old(slots), cut, slots[j.value := r], r);
        slots := slots[j.value := r];
        if r.start + r.len > cursor {
          cursor := r.start + r.len;
        }
      } else {
        PutBack(refs, slots, extra, Of(r));
        refs := refs - Of(r);
      }
    }

    /** A process without mappings. */
    constructor ()
      ensures Valid() && extra == multiset{} && forall i :: 0 <= i < SLOTS ==> !slots[i].used
    {
      slots := seq(SLOTS, _ => Region(false, 0, 0, Prot(false, false, false, false),
                                      Flags(false, false, false, false, 0), None, 0));
      cursor, refs, extra := MMAP_START, multiset{}, multiset{};
      new;
      forall v ensures Named(slots, v) == 0 {
        NoneNamed(slots, v);
      }
    }

    /**
     sys_mmap.  A success gives exactly the range the new meaning; a table without room for the
     region leaves the range empty; every other failure changes nothing, except that an accepted file
     mapping outside the user range keeps its vnode reference for good.
     */
    method Map(addr: int, len: int, prot: Prot, flags: Flags, file: File, offset: int) returns (res: MapResult)
      requires Valid() && 0 <= addr < WORDS && 0 <= len < WORDS
      modifies this
      ensures Valid()
      ensures res.Mapped? || res.Unrecorded? <==>
        && Accepted(addr, len, prot, flags, offset) && FileOk(flags, file)
        && InUser(if flags.fixed then addr else old(cursor), len)
      ensures res.Mapped? ==> res.start == if flags.fixed then addr else old(cursor)
      ensures res.Mapped? ==> MapsPages(old(slots), slots, res.start, len, prot, flags, file, offset)
      ensures res.Unrecorded? ==>
        var start := if flags.fixed then addr else old(cursor);
        Replaced(old(slots), slots, NewRegion(start, len, prot, flags, file, offset))
      ensures res.Unrecorded? ==> Full(slots)
      ensures res.Failed? ==> slots == old(slots)
      ensures cursor ==
        if res.Mapped? && res.start + PageUp(len) > old(cursor) then res.start + PageUp(len) else old(cursor)
      ensures extra == old(extra) +
        (if Leaks(addr, len, prot, flags, offset, file, old(cursor)) then multiset{file.vnode} else multiset{})
    {
      hide Aligned, Balanced, At, Replaced, Changed, TableOk, Below, PageUp, Sum, CheckArguments, MapsPages, InUser;
      hide Means, Full, RegionOk, Accepted;
      var pagelen := PageUp(len);
      var error := CheckArguments(addr, len, prot, flags, offset, file);
      if error.Some? {
        return Failed(error.value);
      }
      AcceptedIs(addr, len, prot, flags, offset);
      var start := if flags.fixed then addr else cursor;
      var r := NewRegion(start, len, prot, flags, file, offset);
      Reference(r);
      PageUpWhole(len);
      RangeCheck(start, len);
      if start < USER_BASE || Sum(start, pagelen) < start || Sum(start, pagelen) > USER_TOP {
        return Failed(ENOMEM);
      }
      RegionFits(start, len, prot, flags, file, offset);
      ghost var cut;
      var ok;
      ok, cut := Place(r);
      assert extra == old(extra);
      RegionMeans(old(slots), slots, start, len, prot, flags, file, offset);
      return if ok then Mapped(start) else Unrecorded;
    }

    /** The walk of sys_munmap over the pages of its range. */
    method AllMapped(addr: int, end: int) returns (ok: bool)
      requires Valid() && Aligned(addr) && Aligned(end)
      ensures ok <==> forall a :: addr <= a < end && Aligned(a) ==> MappedAt(slots, a)
    {
      hide TableOk, Balanced, Below;
      var a := addr;
      while a < end
        invariant Aligned(a) && addr <= a && (addr <= end ==> a <= end)
        invariant forall x :: addr <= x < a && Aligned(x) ==> MappedAt(slots, x)
        decreases end - a
      {
        var i := FindRegion(a);
        NowhereMapped(slots, a, i);
        if i.None? {
          return false;
        }
        NextPage(a, end);
        a := a + PAGE;
      }
      return true;
    }

    /** sys_munmap. */
    method Unmap(addr: int, len: int) returns (ok: bool)
      requires Valid() && 0 <= addr < WORDS && 0 <= len < WORDS
      modifies this`slots, this`refs
      ensures Valid()
      ensures !ok ==> slots == old(slots) && refs == old(refs)
      ensures ok <==> Unmappable(old(slots), addr, len)
      ensures ok ==> var end := Sum(addr, PageUp(len));
        && (forall a, b :: addr <= a < end ==> !Means(slots, a, b))
        && (SameOutside(old(slots), slots, addr, end) <==>
            !AnyFrontFile(old(slots), addr, end) && !(Full(old(slots)) && AnyInside(old(slots), addr, end)))
    {
      hide Aligned, Balanced, TableOk, Below, PageUp, Sum, Means, Cut, SameOutside;
      if !Aligned(addr) || len == 0 || PageUp(len) < len {
        return false;
      }
      var end := Sum(addr, PageUp(len));
      if end < addr {
        return false;
      }
      EndAligned(addr, len);
      ok := AllMapped(addr, end);
      if ok {
        CutRange(addr, end, false, false);
        CutOk(old(slots), slots, addr, end, false, false);
        UnmapRightIff(old(slots), slots, addr, end);
      }
    }

    /** mmap_teardown. */
    method Teardown()
      requires Valid()
      modifies this`slots, this`refs, this`cursor
      ensures Valid() && refs == extra && cursor == MMAP_START && forall i :: 0 <= i < SLOTS ==> !slots[i].used
    {
      hide Balanced, Aligned;
      for i := 0 to SLOTS
        invariant |slots| == SLOTS && Balanced(refs, slots, extra)
        invariant forall k :: 0 <= k < i ==> !slots[k].used
      {
        if slots[i].used {
          GivesBack(refs, slots, extra, i);
          slots, refs := slots[i := Freed(slots[i])], refs - Of(slots[i]);
        }
      }
      cursor := MMAP_START;
      NothingHeld();
    }

    lemma {:induction false} NothingHeld()
      requires Balanced(refs, slots, extra) && forall i :: 0 <= i < |slots| ==> !slots[i].used
      ensures refs == extra && Aligned(MMAP_START)
    {
      forall v ensures refs[v] == extra[v] {
        NoneNamed(slots, v);
      }
    }

    /** mmap_fork into a process that has no mappings: every address means in the child what it means in the parent. */
    static method Fork(parent: RegionTable, child: RegionTable)
      requires parent != child && parent.Valid() && child.Valid() && forall i :: 0 <= i < SLOTS ==> !child.slots[i].used
      modifies child
      ensures child.Valid() && child.cursor == parent.cursor && child.extra == old(child.extra)
      ensures forall a, b :: Means(child.slots, a, b) <==> Means(parent.slots, a, b)
    {
      hide Balanced, Aligned, RegionOk;
      ghost var m: nat := 0;
      for i := 0 to SLOTS
        invariant TableOk(child.slots) && Balanced(child.refs, child.slots, child.extra) && m <= i
        invariant child.extra == old(child.extra)
        invariant forall k :: 0 <= k < SLOTS ==> (child.slots[k].used <==> k < m)
        invariant Copied(parent.slots, child.slots, i)
      {
        if parent.slots[i].used {
          var j := child.AllocSlot();
          CopyMore(parent.slots, child.slots, i, m);
          assert FirstFree(child.slots, m);
          FreeOrFull(child.slots, j);
          AddMeaning(child.slots, m, parent.slots[i]);
          Takes(child.refs, child.slots, child.extra, m, parent.slots[i]);
          child.refs := child.refs + Of(parent.slots[i]);
          child.slots := child.slots[j.value := parent.slots[i]];
          m := m + 1;
        }
      }
      child.cursor := parent.cursor;
      CopiedAll(parent.slots, child.slots);
    }

    /** vnode_ref for a mapping that is not recorded yet. */
    method Reference(r: Region)
      requires Valid()
      modifies this`refs, this`extra
      ensures Valid() && extra == old(extra) + Of(r)
    {
      refs, extra := refs + Of(r), extra + Of(r);
    }
  }

  ghost predicate MappedAt(slots: Slots, a: int) {
    exists b :: Means(slots, a, b)
  }

  /** The used regions of the child are those among the parent's first i. */
  ghost predicate Copied(parent: Slots, child: Slots, i: nat) {
    && i <= |parent|
    && (forall k :: 0 <= k < |child| && child[k].used ==> child[k] in parent[..i])
    && (forall k :: 0 <= k < i && parent[k].used ==> parent[k] in child)
  }

  lemma {:induction false} CopyMore(parent: Slots, child: Slots, i: nat, m: nat)
    requires TableOk(parent) && |child| == SLOTS && i < SLOTS && m <= i && parent[i].used && Copied(parent, child, i)
    requires forall k :: 0 <= k < SLOTS ==> (child[k].used <==> k < m)
    ensures forall k :: 0 <= k < SLOTS ==> !Overlaps(child[k], parent[i].start, End(parent[i]))
    ensures Copied(parent, child[m := parent[i]], i + 1)
  {
    forall k | 0 <= k < SLOTS ensures !Overlaps(child[k], parent[i].start, End(parent[i])) {
      if child[k].used {
        var n :| 0 <= n < i && parent[n] == child[k];
        assert Apart(parent[n], parent[i]);
      }
    }
    assert parent[..i + 1] == parent[..i] + [parent[i]];
    var child' := child[m := parent[i]];
    assert child'[m] == parent[i];
    forall k | 0 <= k < i && parent[k].used ensures parent[k] in child' {
      var n :| 0 <= n < SLOTS && child[n] == parent[k];
      assert child'[n] == parent[k];
    }
  }

  lemma {:induction false} CopiedAll(parent: Slots, child: Slots)
    requires Copied(parent, child, |parent|)
    ensures forall a, b :: Means(child, a, b) <==> Means(parent, a, b)
    ensures forall cursor :: Below(parent, cursor) ==> Below(child, cursor)
  {
    forall a, b ensures Means(child, a, b) <==> Means(parent, a, b) {
      if Means(child, a, b) {
        var k :| 0 <= k < |child| && At(child[k], a, b);
        var n :| 0 <= n < |parent| && parent[n] == child[k];
      }
      if Means(parent, a, b) {
        var k :| 0 <= k < |parent| && At(parent[k], a, b);
        var n :| 0 <= n < |child| && child[n] == parent[k];
      }
    }
  }

  /** A range of whole pages that does not wrap and is mapped throughout. */
  ghost predicate Unmappable(slots: Slots, addr: int, len: int) {
    && Aligned(addr) && len > 0 && PageUp(len) >= len && Sum(addr, PageUp(len)) >= addr
    && forall a :: addr <= a < Sum(addr, PageUp(len)) && Aligned(a) ==> MappedAt(slots, a)
  }

  lemma {:induction false} NowhereMapped(slots: Slots, a: int, i: Option<nat>)
    requires i.Some? ==> i.value < |slots| && slots[i.value].used && slots[i.value].start <= a < End(slots[i.value])
    requires i.None? ==> forall b :: !Means(slots, a, b)
    ensures MappedAt(slots, a) <==> i.Some?
  {
    if i.Some? {
      var r := slots[i.value];
      var b := Backing(r.prot, r.flags,
                       if r.vnode.None? then None else Some((r.vnode.value, r.offset + (a - r.start))));
      assert At(r, a, b);
      assert Means(slots, a, b);
    }
  }

  lemma {:induction false} NextPage(a: int, end: int)
    requires Aligned(a) && Aligned(end) && a < end
    ensures Aligned(a + PAGE) && a + PAGE <= end && forall x :: a < x < a + PAGE ==> !Aligned(x)
  {
  }

  lemma {:induction false} EndAligned(addr: int, len: int)
    requires 0 <= addr < WORDS && Aligned(addr) && 0 < len < WORDS && PageUp(len) >= len &&
      Sum(addr, PageUp(len)) >= addr
    ensures Aligned(Sum(addr, PageUp(len))) && addr < Sum(addr, PageUp(len)) == addr + PageUp(len)
  {
  }

  datatype Errno = EINVAL | EACCES | ENOMEM | EBADF | ENODEV

  /** What the descriptor argument leads to. */
  datatype File = BadDescriptor | NotMappable | Denied | Regular(vnode: int)

  datatype MapResult = Mapped(start: int) | Unrecorded | Failed(errno: Errno)

  /** A length in whole pages, in 64-bit arithmetic. */
  function PageUp(len: int): int {
    (len + PAGE - 1) % WORDS / PAGE * PAGE
  }

  /** Rounding up wraps for the last page of lengths; else it gives the least whole number of pages. */
  lemma {:induction false} PageUpWhole(len: int)
    requires 0 < len < WORDS
    ensures PageUp(len) >= len <==> len <= WORDS - PAGE
    ensures PageUp(len) >= len ==> Aligned(PageUp(len)) && PageUp(len) < len + PAGE && 0 < PageUp(len) < WORDS
  {
  }

  /** The two comparisons of the wrapped sum say that the range lies in user space. */
  lemma {:induction false} RangeCheck(start: int, len: int)
    requires 0 <= start < WORDS && Aligned(start) && 0 < len <= WORDS - PAGE
    ensures InUser(start, len) <==>
      !(start < USER_BASE || Sum(start, PageUp(len)) < start || Sum(start, PageUp(len)) > USER_TOP)
    ensures InUser(start, len) ==> start + PageUp(len) <= USER_TOP
  {
    PageUpWhole(len);
    AlignedDifference(start, PageUp(len));
    NoneBetween(start + PageUp(len), USER_TOP);
  }

  lemma {:induction false} NoneBetween(end: int, top: int)
    requires Aligned(end) && Aligned(top)
    ensures end <= top <==> end - PAGE < top
  {
  }

  function Sum(x: int, y: int): int {
    (x + y) % WORDS
  }

  predicate Accepted(addr: int, len: int, prot: Prot, flags: Flags, offset: int) {
    && len > 0 && !prot.stray && !(prot.write && prot.exec) && flags.private != flags.shared
    && Aligned(offset) && (flags.fixed ==> Aligned(addr)) && len <= WORDS - PAGE
  }

  /** The checks of sys_mmap before it takes a vnode reference, in their order. */
  function CheckArguments(addr: int, len: int, prot: Prot, flags: Flags, offset: int, file: File): (e: Option<Errno>)
    requires 0 <= len < WORDS
    ensures e.None? <==> Accepted(addr, len, prot, flags, offset) && FileOk(flags, file)
  {
    if len <= 0 || prot.stray then Some(EINVAL)
    else if prot.write && prot.exec then Some(EACCES)
    else if flags.private == flags.shared || !Aligned(offset) || (flags.fixed && !Aligned(addr)) then Some(EINVAL)
    else if PageUp(len) < len then Some(ENOMEM)
    else if flags.anonymous || file.Regular? then None
    else Some(if file.BadDescriptor? then EBADF else if file.NotMappable? then ENODEV else EACCES)
  }

  predicate FileOk(flags: Flags, file: File) {
    flags.anonymous || file.Regular?
  }

  predicate InUser(start: int, len: int) {
    USER_BASE <= start && start + len <= USER_TOP
  }

  /** The address lies in one of the pages that `len` bytes from `start` on touch. */
  predicate OfPages(start: int, len: int, a: int) {
    start <= a && a - a % PAGE < start + len
  }

  function FileAt(flags: Flags, file: File, offset: int): Option<(int, int)> {
    if flags.anonymous || !file.Regular? then None else Some((file.vnode, offset))
  }

  function NewRegion(start: int, len: int, prot: Prot, flags: Flags, file: File, offset: int): Region {
    Region(true, start, PageUp(len), prot, flags,
           if !flags.anonymous && file.Regular? then Some(file.vnode) else None, offset)
  }

  /** The path of sys_mmap that takes a vnode reference and forgets it. */
  predicate Leaks(addr: int, len: int, prot: Prot, flags: Flags, offset: int, file: File, cursor: int)
  {
    && Accepted(addr, len, prot, flags, offset) && !flags.anonymous && file.Regular?
    && !InUser(if flags.fixed then addr else cursor, len)
  }

  ghost predicate Replaced(slots: Slots, cut: Slots, r: Region) {
    if r.flags.fixed then Cut(slots, cut, r.start, End(r), true, true) else cut == slots
  }

  /** The range has the new region's meaning and every other address the one it had. */
  ghost predicate Changed(slots: Slots, slots': Slots, r: Region) {
    forall a, b :: Means(slots', a, b) <==> (if r.start <= a < End(r) then At(r, a, b) else Means(slots, a, b))
  }

  lemma {:induction false} AcceptedIs(addr: int, len: int, prot: Prot, flags: Flags, offset: int)
    requires Accepted(addr, len, prot, flags, offset)
    ensures 0 < len <= WORDS - PAGE && !(prot.write && prot.exec) && (flags.fixed ==> Aligned(addr))
  {
  }

  lemma {:induction false} RegionFits(start: int, len: int, prot: Prot, flags: Flags, file: File, offset: int)
    requires 0 <= start < WORDS && Aligned(start) && 0 < len <= WORDS - PAGE && InUser(start, len)
    requires !(prot.write && prot.exec)
    ensures RegionOk(NewRegion(start, len, prot, flags, file, offset))
    ensures Aligned(start + PageUp(len))
  {
    PageUpWhole(len);
    RangeCheck(start, len);
    AlignedDifference(start, PageUp(len));
  }

  lemma {:induction false} PagesOf(start: int, len: int, a: int)
    requires Aligned(start) && 0 < len <= WORDS - PAGE
    ensures OfPages(start, len, a) <==> start <= a < start + PageUp(len)
  {
    PageUpWhole(len);
    var end, page := start + PageUp(len), a - a % PAGE;
    AlignedDifference(start, PageUp(len));
    assert Aligned(page) by {
      assert a == PAGE * (a / PAGE) + a % PAGE;
      WholePages(a / PAGE);
    }
    NoneBetween(end, page);
  }

  /**
   The pages that `len` bytes from `start` on touch have the protection and flags given, with the
   file's bytes from `offset` on unless anonymous; every other address has the meaning it had.
   */
  ghost predicate MapsPages(slots: Slots, slots': Slots, start: int, len: int, prot: Prot, flags: Flags, file: File,
                            offset: int) {
    forall a, b :: Means(slots', a, b) <==>
      if OfPages(start, len, a) then b == Backing(prot, flags, FileAt(flags, file, offset + (a - start)))
      else Means(slots, a, b)
  }

  lemma {:induction false} RegionMeans(slots: Slots, slots': Slots, start: int, len: int, prot: Prot, flags: Flags,
                                       file: File, offset: int)
    requires Aligned(start) && 0 < len <= WORDS - PAGE
    ensures Changed(slots, slots', NewRegion(start, len, prot, flags, file, offset)) <==>
      MapsPages(slots, slots', start, len, prot, flags, file, offset)
  {
    hide Means, PageUp, Aligned, OfPages;
    forall a ensures OfPages(start, len, a) <==> start <= a < start + PageUp(len) {
      PagesOf(start, len, a);
    }
  }

  lemma {:induction false} PutBack(refs: multiset<int>, slots: Slots, extra: multiset<int>, one: multiset<int>)
    requires Balanced(refs, slots, extra + one)
    ensures Balanced(refs - one, slots, extra)
  {
    hide Named;
    forall v ensures (refs - one)[v] == Named(slots, v) + extra[v] {
      NamedPositive(slots, v);
    }
  }

  lemma {:induction false} Placed(slots: Slots, cut: Slots, slots': Slots, r: Region)
    requires TableOk(slots) && RegionOk(r) && r.used && |cut| == SLOTS && !Full(cut)
    requires Replaced(slots, cut, r)
    requires forall k :: 0 <= k < SLOTS ==> !Overlaps(cut[k], r.start, End(r))
    requires forall a, b :: Means(slots', a, b) <==> At(r, a, b) || Means(cut, a, b)
    ensures Changed(slots, slots', r)
  {
    hide Cut, Full;
    forall a, b ensures Means(cut, a, b) <==> Means(slots, a, b) && !(r.start <= a < End(r)) {
      if r.flags.fixed {
        if Full(slots) && AnyInside(slots, r.start, End(r)) {
          FullStaysFull(slots, cut, r.start, End(r));
        }
        ReplaceMeaning(slots, cut, r.start, End(r), a, b);
      } else if Means(slots, a, b) {
        var k :| 0 <= k < SLOTS && At(slots[k], a, b);
        assert !Overlaps(cut[k], r.start, End(r));
      }
    }
  }

  lemma {:induction false} Untouched(r: Region, lo: int, hi: int, advance: bool)
    requires !Overlaps(r, lo, hi)
    ensures Trim(r, lo, hi, advance) == r
  {
  }

  lemma {:induction false} AfterSplit(slots: Slots, slots': Slots, i: nat, k: nat, lo: int, hi: int, keepHead: bool)
    requires TableOk(slots) && lo < hi && i < k < SLOTS && Inside(slots[i], lo, hi) &&
      SplitAt(slots, slots', i, lo, hi, keepHead)
    ensures k < |slots'| && !Overlaps(slots'[k], lo, hi)
  {
    InsideAlone(slots, i, k, lo, hi);
    FreeOrFull(slots, FreeFrom(slots, 0));
  }

  lemma {:induction false} BeforeSplit(slots: Slots, slots': Slots, i: nat, lo: int, hi: int, advance: bool)
    requires TableOk(slots) && lo < hi && i < SLOTS && Inside(slots[i], lo, hi) &&
      Trimmed(slots, slots', i, lo, hi, advance)
    ensures slots' == slots
  {
    forall k: nat | k < i ensures slots'[k] == slots[k] {
      InsideAlone(slots, i, k, lo, hi);
    }
  }

  // ----- The departures, at an input -----

  const PLAIN := Flags(true, false, false, true, 0)
  const FREE_SLOT := Region(false, 0, 0, READ_ONLY, PLAIN, None, 0)
  const READ_ONLY := Prot(true, false, false, false)
  const OF_FILE := Flags(true, false, false, false, 0)

  /** Two pages of file 7 at 0x5000_0000. */
  function OneFile(): Slots {
    seq(SLOTS, _ => FREE_SLOT)[0 := Region(true, 0x5000_0000, 2 * PAGE, READ_ONLY, OF_FILE, Some(7), 0)]
  }

  /** After munmap of the first page, the second shows the first page of the file. */
  lemma {:induction false} FrontCutShowsWrongPage(slots': Slots)
    requires Cut(OneFile(), slots', 0x5000_0000, 0x5000_1000, false, false)
    ensures TableOk(OneFile())
    ensures Means(OneFile(), 0x5000_1000, Backing(READ_ONLY, OF_FILE, Some((7, 0x1000))))
    ensures Means(slots', 0x5000_1000, Backing(READ_ONLY, OF_FILE, Some((7, 0))))
  {
    var slots := OneFile();
    assert At(slots[0], 0x5000_1000, Backing(READ_ONLY, OF_FILE, Some((7, 0x1000))));
    assert !AnyInside(slots, 0x5000_0000, 0x5000_1000);
    assert slots'[0] == Trim(slots[0], 0x5000_0000, 0x5000_1000, false);
    assert At(slots'[0], 0x5000_1000, Backing(READ_ONLY, OF_FILE, Some((7, 0))));
  }

  /** All slots taken by anonymous regions of three pages, a page apart. */
  function AllTaken(): Slots {
    seq(SLOTS, k => Region(true, 0x5000_0000 + 0x4000 * k, 3 * PAGE, READ_ONLY, PLAIN, None, 0))
  }

  /** After munmap of the middle page of the first, its first page is gone too. */
  lemma {:induction false} FullSplitDropsHead(slots': Slots)
    requires Cut(AllTaken(), slots', 0x5000_1000, 0x5000_2000, false, false)
    ensures TableOk(AllTaken())
    ensures Means(AllTaken(), 0x5000_0000, Backing(READ_ONLY, PLAIN, None))
    ensures !Means(slots', 0x5000_0000, Backing(READ_ONLY, PLAIN, None))
  {
    var slots, b := AllTaken(), Backing(READ_ONLY, PLAIN, None);
    assert At(slots[0], 0x5000_0000, b);
    forall k | 0 <= k < SLOTS
      ensures RegionOk(slots[k])
    {
      WholePages(0x5_0000 + 4 * k);
    }
    assert Inside(slots[0], 0x5000_1000, 0x5000_2000);
    CutIsSplit(slots, slots', 0, 0x5000_1000, 0x5000_2000, false, false);
    SplitMeans(slots, slots', 0, 0x5000_1000, 0x5000_2000, false, 0x5000_0000, b);
  }

  /** mmap of file 7 at the top of user space fails and keeps its reference to the file. */
  method MapKeepsReference() returns (t: RegionTable, res: MapResult)
    ensures fresh(t) && t.Valid() && res.Failed? && t.refs == multiset{7}
    ensures forall i :: 0 <= i < SLOTS ==> !t.slots[i].used
  {
    t := new RegionTable();
    assert Aligned(USER_TOP) && PageUp(PAGE) == PAGE;
    res := t.Map(USER_TOP, PAGE, READ_ONLY, OF_FILE.(fixed := true), Regular(7), 0);
    t.NothingHeld();
  }
}
