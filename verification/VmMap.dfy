/**
 vm_map and shared vm_objects: the entry array worked in place, the objects' reference counts,
 and the page cache that gives every page of a shared object one frame.
 */
module VmMap {
  import opened VmLayout

  const PAGE := 4096
  const U32 := 0x1_0000_0000
  const USER_BASE := 0x0800_0000
  const USER_STACK_TOP := 0x0000_7FFF_FFFF_F000
  const INIT_CAPACITY := 64
  const MAX_CAPACITY := 65536

  /* ---------------- objects ---------------- */

  /** A shared object: its reference count, size in bytes, and frame per page (0: none yet). */
  datatype Object = Object(refs: nat, size: nat, pages: seq<nat>)

  type Objects = map<nat, Object>

  ghost function Refs(objs: Objects, o: nat): nat {
    if o in objs then objs[o].refs else 0
  }

  /** The entries that name object `o`. */
  ghost function Count(es: seq<Entry>, o: nat): nat {
    if es == [] then 0 else Count(es[..|es| - 1], o) + (if es[|es| - 1].obj == o then 1 else 0)
  }

  lemma {:induction false} CountConcat(es: seq<Entry>, fs: seq<Entry>, o: nat)
    ensures Count(es + fs, o) == Count(es, o) + Count(fs, o)
  {
    if fs == [] {
      assert es + fs == es;
    } else {
      assert (es + fs)[..|es + fs| - 1] == es + fs[..|fs| - 1];
      CountConcat(es, fs[..|fs| - 1], o);
    }
  }

  lemma {:induction false} CountMember(es: seq<Entry>, i: nat)
    requires i < |es|
    ensures Count(es, es[i].obj) > 0
  {
    assert es == es[..i] + [es[i]] + es[i + 1..];
    CountConcat(es[..i] + [es[i]], es[i + 1..], es[i].obj);
    CountConcat(es[..i], [es[i]], es[i].obj);
  }

  /** Each count is this map's entries plus the references held elsewhere. */
  ghost predicate Balanced(objs: Objects, es: seq<Entry>, others: nat -> nat) {
    && (forall o :: o in objs ==> objs[o].refs > 0)
    && (forall o :: Refs(objs, o) == Count(es, o) + others(o))
  }

  ghost predicate HasFrame(objs: Objects, o: nat, i: int) {
    o in objs && 0 <= i < |objs[o].pages| && objs[o].pages[i] != 0
  }

  /** Frames in use are not free, and no two pages share one. */
  ghost predicate FramesOk(objs: Objects, free: set<nat>) {
    && 0 !in free
    && (forall o, i :: HasFrame(objs, o, i) ==> objs[o].pages[i] !in free)
    && (forall o, i, p, j :: HasFrame(objs, o, i) && HasFrame(objs, p, j) && (o, i) != (p, j) ==>
          objs[o].pages[i] != objs[p].pages[j])
  }

  /** A page that has its frame keeps it as long as its object lives. */
  ghost predicate FramesKept(objs: Objects, objs': Objects) {
    forall o, i :: HasFrame(objs, o, i) && o in objs' ==> HasFrame(objs', o, i) && objs'[o].pages[i] == objs[o].pages[i]
  }

  /** The page has its frame, or there is a place in the page array, a free frame and room to map it. */
  ghost predicate Faultable(objs: Objects, free: set<nat>, o: nat, page: nat, canGrow: bool, canMap: bool) {
    HasFrame(objs, o, page) || (o in objs && (page < |objs[o].pages| || canGrow) && free != {} && canMap)
  }

  /** A page without a frame costs one free frame, the answer; no other call takes one. */
  ghost predicate FrameTaken(objs: Objects, free: set<nat>, o: nat, page: nat, ok: bool, phys: nat, free': set<nat>) {
    if ok && !HasFrame(objs, o, page) then phys in free && free' == free - {phys} else free' == free
  }

  /** No other page got a frame. */
  ghost predicate OnlyPage(objs: Objects, objs': Objects, o: nat, page: nat) {
    forall p: nat, i: int :: HasFrame(objs', p, i) && !(p == o && i == page) ==> HasFrame(objs, p, i)
  }

  /** The same objects, as large as before; their page arrays may have grown. */
  ghost predicate SameSizes(objs: Objects, objs': Objects) {
    objs'.Keys == objs.Keys &&
    forall p :: p in objs ==> objs'[p].size == objs[p].size && |objs'[p].pages| >= |objs[p].pages|
  }

  class ObjectTable {
    var objs: Objects
    var free: set<nat>

    ghost predicate Valid()
      reads this
    {
      FramesOk(objs, free) && forall o :: o in objs ==> objs[o].refs > 0
    }

    constructor (free: set<nat>)
      requires 0 !in free
      ensures Valid() && objs == map[] && this.free == free
    {
      objs := map[];
      this.free := free;
    }

    /** vm_object_create_shared: one reference, no page yet. */
    method CreateShared(o: nat, size: nat, canAlloc: bool) returns (ok: bool)
      requires Valid() && o !in objs
      modifies this`objs
      ensures Valid() && FramesKept(old(objs), objs)
      ensures objs == if ok then old(objs)[o := Object(1, size, [])] else old(objs)
      ensures ok <==> size > 0 && canAlloc
    {
      ok := size > 0 && canAlloc;
      if ok {
        objs := objs[o := Object(1, size, [])];
        assert forall p, i :: HasFrame(objs, p, i) ==> HasFrame(old(objs), p, i);
      }
    }

    /**
     vm_object_shared_fault: the page's frame, taken from the free ones the first time.  The
     page array may grow; nothing that has a frame loses it.
     */
    method SharedFault(o: nat, offset: nat, canGrow: bool, canMap: bool) returns (ok: bool, phys: nat)
      requires Valid() && o in objs && (offset < objs[o].size ==> offset / PAGE < 0x8000_0000)
      modifies this
      ensures Valid() && FramesKept(old(objs), objs) && SameSizes(old(objs), objs)
      ensures forall p :: p in objs ==> objs[p].refs == old(objs)[p].refs
      ensures ok ==> offset < objs[o].size && HasFrame(objs, o, offset / PAGE) && phys == objs[o].pages[offset / PAGE]
      ensures ok <==> offset < objs[o].size && Faultable(old(objs), old(free), o, offset / PAGE, canGrow, canMap)
      ensures FrameTaken(old(objs), old(free), o, offset / PAGE, ok, phys, free)
      ensures OnlyPage(old(objs), objs, o, offset / PAGE)
    {
      ok, phys := false, 0;
      if offset >= objs[o].size {
        return;
      }
      var page := offset / PAGE;
      if page >= |objs[o].pages| {
        var got := GrowPages(o, page, canGrow);
        if !got {
          return;
        }
      }
      if objs[o].pages[page] != 0 {
        return true, objs[o].pages[page];
      }
      if free == {} || !canMap {
        return;
      }
      var frame :| frame in free;
      GiveFrame(o, page, frame);
      return true, frame;
    }

    method GrowPages(o: nat, page: nat, canAlloc: bool) returns (ok: bool)
      requires Valid() && o in objs && |objs[o].pages| <= page < 0x8000_0000
      modifies this`objs
      ensures Valid() && FramesKept(old(objs), objs) && SameSizes(old(objs), objs)
      ensures forall p :: p in objs ==> objs[p].refs == old(objs)[p].refs
      ensures ok <==> canAlloc
      ensures ok ==> page < |objs[o].pages|
      ensures forall p, i :: HasFrame(objs, p, i) ==> HasFrame(old(objs), p, i)
    {
      var pages := objs[o].pages;
      var newCap := if |pages| == 0 then 64 else |pages| * 2 % U32;
      while newCap <= page
        invariant |pages| < newCap < U32
        decreases U32 - newCap
      {
        newCap := newCap * 2 % U32;
      }
      ok := canAlloc;
      if ok {
        var bigger := pages + seq(newCap - |pages|, _ => 0);
        objs := objs[o := objs[o].(pages := bigger)];
        assert forall p, i :: HasFrame(objs, p, i) ==>
          HasFrame(old(objs), p, i) && objs[p].pages[i] == old(objs)[p].pages[i];
      }
    }

    method GiveFrame(o: nat, page: nat, frame: nat)
      requires Valid() && o in objs && page < |objs[o].pages| && objs[o].pages[page] == 0 && frame in free
      modifies this
      ensures Valid() && FramesKept(old(objs), objs)
      ensures objs == old(objs)[o := old(objs)[o].(pages := old(objs)[o].pages[page := frame])]
      ensures free == old(free) - {frame}
    {
      free := free - {frame};
      objs := objs[o := objs[o].(pages := objs[o].pages[page := frame])];
      assert forall p, i :: HasFrame(objs, p, i) && (p, i) != (o, page) ==>
        HasFrame(old(objs), p, i) && objs[p].pages[i] == old(objs)[p].pages[i];
    }

    /** vm_object_retain. */
    method Retain(o: nat)
      requires Valid() && o in objs
      modifies this`objs
      ensures Valid() && FramesKept(old(objs), objs) && objs.Keys == old(objs.Keys)
      ensures RefsShifted(old(objs), objs, o, 1)
    {
      objs := objs[o := objs[o].(refs := objs[o].refs + 1)];
      assert forall p, i :: HasFrame(objs, p, i) ==> HasFrame(old(objs), p, i);
    }

    /** vm_object_release: at zero the object goes and its frames are freed. */
    method Release(o: nat)
      requires Valid() && o in objs
      modifies this
      ensures Valid() && FramesKept(old(objs), objs) && objs.Keys <= old(objs.Keys)
      ensures RefsShifted(old(objs), objs, o, -1)
      ensures old(objs)[o].refs > 1 ==> free == old(free)
      ensures old(objs)[o].refs == 1 ==> forall f :: f in free <==> f in old(free) || FrameOf(old(objs), o, f)
    {
      var obj := objs[o].(refs := objs[o].refs - 1);
      if obj.refs > 0 {
        objs := objs[o := obj];
        assert forall p, i :: HasFrame(objs, p, i) ==> HasFrame(old(objs), p, i);
        return;
      }
      var i := 0;
      var given: set<nat> := {};
      while i < |obj.pages|
        invariant 0 <= i <= |obj.pages|
        invariant 0 !in given && forall f :: f in given ==> exists j :: HasFrame(objs, o, j) && obj.pages[j] == f
        invariant forall j :: 0 <= j < i && obj.pages[j] != 0 ==> obj.pages[j] in given
      {
        if obj.pages[i] != 0 {
          assert HasFrame(objs, o, i);
          given := given + {obj.pages[i]};
        }
        i := i + 1;
      }
      objs := map p | p in objs && p != o :: objs[p];
      free := free + given;
      forall p, k | HasFrame(objs, p, k)
        ensures objs[p].pages[k] !in given
      {
        assert HasFrame(old(objs), p, k);
      }
      assert forall p, k :: HasFrame(objs, p, k) ==> HasFrame(old(objs), p, k);
    }
  }

  ghost predicate FrameOf(objs: Objects, o: nat, f: nat) {
    exists j :: HasFrame(objs, o, j) && objs[o].pages[j] == f
  }

  /** `cap` doubled `n` times in 32 bits. */
  ghost function Doubled(cap: nat, n: nat): nat {
    if n == 0 then cap else Doubled(cap, n - 1) * 2 % U32
  }

  /** The capacities the doubling runs through before it wraps to 0. */
  ghost predicate Capacity(x: nat) {
    x in {0x40, 0x80, 0x100, 0x200, 0x400, 0x800, 0x1000, 0x2000, 0x4000, 0x8000, 0x1_0000, 0x2_0000, 0x4_0000,
          0x8_0000, 0x10_0000, 0x20_0000, 0x40_0000, 0x80_0000, 0x100_0000, 0x200_0000, 0x400_0000, 0x800_0000,
          0x1000_0000, 0x2000_0000, 0x4000_0000, 0x8000_0000}
  }

  lemma {:induction false} DoubledIsCapacity(n: nat)
    ensures Doubled(64, n) == 0 || Capacity(Doubled(64, n))
  {
    if n > 0 {
      DoubledIsCapacity(n - 1);
    }
  }

  lemma {:induction false} LargestCapacity() returns (n: nat)
    ensures Doubled(64, n) == 0x8000_0000
  {
    n := 0;
    while Doubled(64, n) != 0x8000_0000
      invariant Capacity(Doubled(64, n))
      decreases 0x8000_0000 - Doubled(64, n)
    {
      n := n + 1;
    }
  }

  /**
   The page table growth of vm_object_shared_fault doubles a 32-bit capacity until it exceeds
   the page number: from the initial 64 that ends exactly for page numbers below 2^31.
   */
  lemma {:induction false} GrowthEndsIff(page: nat)
    ensures (exists n: nat :: Doubled(64, n) > page) <==> page < 0x8000_0000
  {
    var _ := LargestCapacity();
    if page >= 0x8000_0000 {
      forall n: nat
        ensures Doubled(64, n) <= page
      {
        DoubledIsCapacity(n);
      }
    }
  }

  /** For page 2^31 no number of doublings is enough. */
  lemma {:induction false} GrowthStuck(n: nat)
    ensures Doubled(64, n) <= 0x8000_0000
  {
    DoubledIsCapacity(n);
  }

  /* ---------------- the map ---------------- */

  class AddressSpace {
    var entries: array<Entry>
    var count: nat
    const table: ObjectTable

    ghost predicate Fits()
      reads this
    {
      count <= entries.Length && (entries.Length == 0 || entries.Length >= INIT_CAPACITY)
    }

    ghost function Es(): seq<Entry>
      requires Fits()
      reads this, entries
    {
      entries[..count]
    }

    /** The counts are right, whatever the order of the entries. */
    ghost predicate Tallied(others: nat -> nat)
      reads this, entries, table
    {
      Fits() && table.Valid() && Balanced(table.objs, Es(), others)
    }

    ghost predicate Valid(others: nat -> nat)
      reads this, entries, table
    {
      Tallied(others) && WellFormed(Es())
    }

    /** vm_map_init. */
    constructor (table: ObjectTable, ghost others: nat -> nat)
      requires table.Valid() && Balanced(table.objs, [], others)
      ensures Valid(others) && Es() == [] && this.table == table && fresh(entries)
    {
      entries := new Entry[INIT_CAPACITY];
      count := 0;
      this.table := table;
    }

    /** vm_map_ensure_capacity with vm_map_grow: what lies behind the entries is arbitrary. */
    method EnsureCapacity(extra: nat, canAlloc: bool) returns (ok: bool)
      requires Fits() && extra <= 2
      modifies this`entries
      ensures Fits() && Es() == old(Es()) && count == old(count)
      ensures entries == old(entries) || fresh(entries)
      ensures ok <==> count + extra <= entries.Length
      ensures ok <==> !old(Cramped(extra, canAlloc))
      ensures entries == old(entries) <==> !ok || old(count + extra <= entries.Length)
      ensures entries != old(entries) ==> entries.Length > count + extra
    {
      while count + extra > entries.Length
        invariant Fits() && Es() == old(Es()) && (entries == old(entries) || fresh(entries))
        invariant entries != old(entries) ==> entries.Length > count + extra && old(count + extra > entries.Length)
        invariant entries != old(entries) ==> !old(Cramped(extra, canAlloc))
        decreases MAX_CAPACITY - entries.Length
      {
        var newCap := if entries.Length < INIT_CAPACITY then INIT_CAPACITY else entries.Length * 2;
        if newCap > MAX_CAPACITY {
          return false;
        }
        if !canAlloc {
          return false;
        }
        var bigger := new Entry[newCap];
        forall i | 0 <= i < count {
          bigger[i] := entries[i];
        }
        entries := bigger;
      }
      return true;
    }

    /** entries_shift_right. */
    method ShiftRight(index: nat)
      requires count < entries.Length
      modifies entries
      ensures forall i :: 0 <= i < entries.Length ==>
        entries[i] == if index < i <= count then old(entries[i - 1]) else old(entries[i])
    {
      var i := count;
      while i > index
        invariant i <= count && (i >= index || i == count)
        invariant forall k :: 0 <= k < entries.Length ==>
          entries[k] == if i < k <= count then old(entries[k - 1]) else old(entries[k])
      {
        entries[i] := entries[i - 1];
        i := i - 1;
      }
    }

    /** entries_shift_left: removes the entry at `index`. */
    method RemoveAt(index: nat)
      requires Fits() && index < count
      modifies entries, this`count
      ensures Fits() && Es() == old(Es()[..index] + Es()[index + 1..])
    {
      var i := index;
      while i < count - 1
        invariant count == old(count) && index <= i <= count - 1
        invariant forall k :: 0 <= k < entries.Length ==>
          entries[k] == if index <= k < i then old(entries[k + 1]) else old(entries[k])
      {
        entries[i] := entries[i + 1];
        i := i + 1;
      }
      count := count - 1;
    }

    method InsertAt(index: nat, e: Entry)
      requires Fits() && count < entries.Length && index <= count
      modifies entries, this`count
      ensures Fits() && Es() == Insert(old(Es()), index, e)
    {
      ShiftRight(index);
      entries[index] := e;
      count := count + 1;
    }

    method SetAt(index: nat, e: Entry)
      requires Fits() && index < count
      modifies entries
      ensures Es() == old(Es())[index := e]
    {
      entries[index] := e;
    }

    /**
     vm_map_find_entry: what the binary search finds covers the address.  On entries in order it is
     the covering entry, or there is none.
     */
    method FindEntry(addr: nat) returns (r: int)
      requires Fits()
      ensures r == -1 || (0 <= r < count && Covers(entries[r], addr))
      ensures WellFormed(Es()) ==> Lookup(Es(), addr) == if r == -1 then Unmapped else At(entries[r], addr)
    {
      ghost var es := Es();
      var lo, hi, best := 0, count - 1, -1;
      while lo <= hi
        invariant 0 <= lo <= hi + 1 <= count && best == lo - 1 && (best >= 0 ==> es[best].start <= addr)
        invariant WellFormed(es) ==> forall i :: 0 <= i < lo ==> es[i].start <= addr
        invariant WellFormed(es) ==> forall i :: hi < i < count ==> es[i].start > addr
      {
        var mid := lo + (hi - lo) / 2;
        assert es[mid] == entries[mid];
        if entries[mid].start <= addr {
          best, lo := mid, mid + 1;
        } else {
          hi := mid - 1;
        }
      }
      r := if best >= 0 && addr < entries[best].end then best else -1;
      if WellFormed(es) {
        if r == -1 {
          LookupNone(es, addr);
        } else {
          LookupAt(es, addr, best);
        }
      }
    }

    /** The entry array has no place for `extra` more and cannot be made longer. */
    ghost predicate Cramped(extra: int, canAlloc: bool)
      reads this
    {
      count + extra > entries.Length && Stuck(entries.Length, canAlloc)
    }

    /** The scan of vm_map_map for an entry in the way. */
    method AnyOverlap(addr: nat, end: nat) returns (yes: bool)
      requires Fits()
      ensures yes <==> exists k :: 0 <= k < |Es()| && Overlaps(Es()[k], addr, end)
    {
      ghost var es := Es();
      for i := 0 to count
        invariant forall k :: 0 <= k < i ==> !Overlaps(es[k], addr, end)
      {
        if Overlaps(entries[i], addr, end) {
          assert Overlaps(es[i], addr, end);
          return true;
        }
      }
      return false;
    }

    /** The scan for the first entry that starts after the address. */
    method FindInsertion(addr: nat) returns (at: nat)
      requires Fits()
      ensures InsertionPoint(Es(), at, addr)
    {
      ghost var es := Es();
      at := 0;
      while at < count
        invariant at <= count && forall k :: 0 <= k < at ==> es[k].start <= addr
      {
        assert entries[at] == es[at];
        if entries[at].start > addr {
          return;
        }
        at := at + 1;
      }
    }

    /**
     vm_map_map: refuses bad arguments and overlaps, otherwise puts one entry in before the first that
     starts behind it.  On entries in order that adds exactly one range.
     */
    method Map(addr: nat, obj: nat, off: Word64, size: nat, prot: Prot, inherit: nat, canAlloc: bool,
               ghost others: nat -> nat)
      returns (ok: bool)
      requires Tallied(others) && obj in table.objs && addr < U64 && size < U64
      modifies this, entries, table
      ensures Tallied(others) && FramesKept(old(table.objs), table.objs)
      ensures entries == old(entries) || fresh(entries)
      ensures !ok ==> Es() == old(Es())
      ensures ok <==> Mappable(old(Es()), addr, off, size) && !old(Cramped(1, canAlloc))
      ensures ok ==>
        && addr % PAGE == 0 && size % PAGE == 0 && off % PAGE == 0 && size > 0
        && USER_BASE <= addr && addr + size <= USER_STACK_TOP
        && Inserted(old(Es()), Es(), Entry(addr, addr + size, obj, off, prot, inherit))
      ensures WellFormed(old(Es())) ==> WellFormed(Es())
      ensures ok && WellFormed(old(Es())) ==>
        && (forall a: nat :: addr <= a < addr + size ==> Lookup(old(Es()), a) == Unmapped)
        && (forall a: nat :: Lookup(Es(), a) ==
              if addr <= a < addr + size then Mapped(obj, (off + (a - addr)) % U64, prot, inherit)
              else Lookup(old(Es()), a))
    {
      hide Lookup, Count, Balanced, FramesKept, FramesOk, Inserted, WellFormed;
      FramesKeptRefl(table.objs);
      if size == 0 || addr % PAGE != 0 || off % PAGE != 0 || size % PAGE != 0 {
        return false;
      }
      var end := (addr + size) % U64;
      if end < addr || addr < USER_BASE || end > USER_STACK_TOP {
        return false;
      }
      ghost var es := Es();
      var clash := AnyOverlap(addr, end);
      if clash {
        return false;
      }
      ok := AddEntry(Entry(addr, end, obj, off, prot, inherit), canAlloc, others);
    }

    /** A new entry over a range nothing overlaps, if there is room for it. */
    method AddEntry(e: Entry, canAlloc: bool, ghost others: nat -> nat) returns (ok: bool)
      requires Tallied(others) && e.obj in table.objs && e.start < e.end
      requires forall k :: 0 <= k < |Es()| ==> !Overlaps(Es()[k], e.start, e.end)
      modifies this, entries, table
      ensures Tallied(others) && FramesKept(old(table.objs), table.objs)
      ensures entries == old(entries) || fresh(entries)
      ensures !ok ==> Es() == old(Es())
      ensures ok <==> !old(Cramped(1, canAlloc))
      ensures ok ==> Inserted(old(Es()), Es(), e)
      ensures ok && WellFormed(old(Es())) ==> WellFormed(Es()) && MapRight(old(Es()), Es(), e)
    {
      hide Lookup, Count, Balanced, FramesKept, FramesOk, WellFormed, MapRight;
      FramesKeptRefl(table.objs);
      ghost var es := Es();
      ok := EnsureCapacity(1, canAlloc);
      if !ok {
        return;
      }
      var at := FindInsertion(e.start);
      table.Retain(e.obj);
      InsertAt(at, e);
      if WellFormed(es) {
        MappedRight(es, at, e);
      }
      InsertBalanced(old(table.objs), table.objs, es, at, e, others);
    }

    /** One round of vm_map_unmap; only the split can fail, and then it has changed nothing. */
    method CutAt(i: nat, addr: nat, end: nat, canAlloc: bool) returns (ok: bool, next: nat)
      requires Fits() && table.Valid() && i < count && entries[i].obj in table.objs && addr < end
      modifies this, entries, table
      ensures Fits() && table.Valid()
      ensures FramesKept(old(table.objs), table.objs) && table.objs.Keys <= old(table.objs.Keys)
      ensures entries == old(entries) || fresh(entries)
      ensures var fs := CutIn(old(entries[i]), addr, end, old(count == entries.Length));
        && (ok ==> Es() == old(Es()[..i]) + fs + old(Es()[i + 1..]) && next == i + |fs|)
        && (!ok ==> Es() == old(Es()) && next == i && table.objs == old(table.objs) && entries == old(entries))
        && (ok <==> !(ThreeWay(old(entries[i]), addr, end) && old(Cramped(1, canAlloc))))
        && (ok ==> RefsShifted(old(table.objs), table.objs, old(entries[i]).obj, |fs| - 1))
      ensures !Overlaps(old(entries[i]), addr, end) ==> entries == old(entries) && count == old(count)
    {
      hide FramesKept, FramesOk, Refs, RefsShifted;
      FramesKeptRefl(table.objs);
      RefsUnshifted(table.objs, entries[i].obj);
      ok, next := true, i + 1;
      var e := entries[i];
      ghost var es := Es();
      assert es == es[..i] + [e] + es[i + 1..];
      if !Overlaps(e, addr, end) {
        return;
      }
      if addr <= e.start && end >= e.end {
        table.Release(e.obj);
        RemoveAt(i);
        next := i;
      } else if addr <= e.start && end < e.end {
        SetAt(i, Advanced(e, end));
      } else if addr > e.start && end >= e.end {
        SetAt(i, e.(end := addr));
      } else {
        ok := SplitAt(i, e.(end := addr), Advanced(e, end), canAlloc);
        next := if ok then i + 2 else i;
      }
    }

    /**
     Two entries of one object in the place of the one at `i`, if there is room.  The left one is
     written through a pointer taken before the array may have grown: then it goes to the freed one.
     */
    method SplitAt(i: nat, left: Entry, right: Entry, canAlloc: bool) returns (ok: bool)
      requires Fits() && table.Valid() && i < count
      modifies this, entries, table
      ensures Fits() && table.Valid()
      ensures FramesKept(old(table.objs), table.objs) && table.objs.Keys == old(table.objs.Keys)
      ensures entries == old(entries) || fresh(entries)
      ensures ok ==>
        Es() == old(Es()[..i]) + [if old(count == entries.Length) then old(entries[i]) else left, right] +
          old(Es()[i + 1..])
      ensures ok ==> count == old(count) + 1
      ensures ok && old(count < entries.Length) ==> entries == old(entries)
      ensures ok && old(count == entries.Length) ==> entries.Length > count
      ensures !ok ==> entries == old(entries) && count == old(count)
      ensures !ok ==> Es() == old(Es()) && table.objs == old(table.objs)
      ensures ok <==> !old(Cramped(1, canAlloc))
      ensures ok ==> RefsShifted(old(table.objs), table.objs, right.obj, 1)
    {
      hide FramesKept, FramesOk, Refs;
      FramesKeptRefl(table.objs);
      ghost var es := Es();
      var before := entries;
      ok := EnsureCapacity(1, canAlloc);
      if ok {
        RetainAny(right.obj);
        before[i] := left;
        ghost var first := if before == entries then left else es[i];
        assert Es() == es[..i] + [first] + es[i + 1..];
        InsertAt(i + 1, right);
        assert Es() == es[..i] + [first, right] + es[i + 1..];
      }
    }

    /**
     The loop of vm_map_unmap at index `i`: counts are right.  If the entries `es` were in order, the
     first `k` have been dealt with and the rest stand from `i` on.
     */
    ghost predicate UnmappedUpTo(es: seq<Entry>, k: nat, i: nat, addr: nat, end: nat, cap: nat, others: nat -> nat)
      requires k <= |es|
      reads this, entries, table
    {
      && Tallied(others) && i <= count && count - i == |es| - k
      && (WellFormed(es) ==> UnmappedTo(es, k, i, Es(), entries.Length, addr, end, cap))
    }

    lemma {:induction false} StartUnmap(addr: nat, end: nat, others: nat -> nat)
      requires Tallied(others)
      ensures UnmappedUpTo(Es(), 0, 0, addr, end, entries.Length, others)
    {
      assert Es()[..0] == [] && Es()[0..] == Es();
    }

    lemma {:induction false} Unmapping(es: seq<Entry>, k: nat, i: nat, addr: nat, end: nat, cap: nat,
                                       others: nat -> nat)
      requires k <= |es| && UnmappedUpTo(es, k, i, addr, end, cap, others)
      ensures Tallied(others) && (i < count <==> k < |es|)
      ensures k == |es| && WellFormed(es) ==> Es() == UnmapLeft(es, addr, end, |es| == cap)
    {
      if k == |es| {
        assert es[..k] == es;
      }
    }

    method UnmapOne(ghost es: seq<Entry>, ghost k: nat, i: nat, addr: nat, end: nat, ghost cap: nat, canAlloc: bool,
                    ghost others: nat -> nat)
      returns (ok: bool, next: nat)
      requires k < |es| && i < count && UnmappedUpTo(es, k, i, addr, end, cap, others) && addr < end
      modifies this, entries, table
      ensures FramesKept(old(table.objs), table.objs) && table.objs.Keys <= old(table.objs.Keys)
      ensures entries == old(entries) || fresh(entries)
      ensures ok ==> Fits() && UnmappedUpTo(es, k + 1, next, addr, end, cap, others)
      ensures !ok ==> Tallied(others) && NoSplit(addr, end, canAlloc) && (WellFormed(es) ==> Es() == es)
      ensures WellFormed(es) ==> (ok <==> !(ThreeWay(es[k], addr, end) && |es| == cap && Stuck(cap, canAlloc)))
    {
      hide Lookup, Count, Balanced, FramesKept, FramesOk, WellFormed, Refs, UnmappedTo, CutIn;
      ghost var objs, now, len := table.objs, Es(), entries.Length;
      ghost var had := |now| == len;
      var e := entries[i];
      ghost var a, b := now[..i], now[i + 1..];
      assert now == a + [e] + b;
      ObjectAlive(objs, now, i, others);
      ok, next := CutAt(i, addr, end, canAlloc);
      if WellFormed(es) {
        UnmappedNext(es, k, i, now, len, addr, end, cap);
      }
      if !ok {
        assert Es()[i] == e;
        return;
      }
      CutObj(e, addr, end, had);
      CutBalanced(objs, table.objs, a, e, b, CutIn(e, addr, end, had), others);
      assert |Es()| == count == i + |CutIn(e, addr, end, had)| + |b|;
      if WellFormed(es) {
        UnmappedMore(es, k, i, now, len, addr, end, cap, entries.Length);
      }
    }

    /** There is an entry to split, and no place for the right piece. */
    ghost predicate NoSplit(addr: nat, end: nat, canAlloc: bool)
      reads this, entries
    {
      Fits() && Cramped(1, canAlloc) && AnySplit(Es(), addr, end)
    }

    /**
     vm_map_unmap.  Counts stay right whatever the order of the entries.  On entries in order exactly
     the range is unmapped if and only if no split had to grow the array, and otherwise two overlap;
     the call refuses exactly when it would have to grow the array and cannot.
     */
    method UnmapRange(addr: nat, size: nat, canAlloc: bool, ghost others: nat -> nat) returns (ok: bool)
      requires Tallied(others) && addr < U64 && size < U64
      modifies this, entries, table
      ensures Tallied(others) && FramesKept(old(table.objs), table.objs)
      ensures entries == old(entries) || fresh(entries)
      ensures ok ==> size > 0 && addr + size < U64
      ensures !ok ==> NoSplit(addr, addr + size, canAlloc) || ((size == 0 || addr + size >= U64) && Es() == old(Es()))
      ensures WellFormed(old(Es())) && !ok ==> Es() == old(Es())
      ensures WellFormed(old(Es())) && 0 < size < U64 - addr ==>
        (ok <==> !(AnySplit(old(Es()), addr, addr + size) && old(Cramped(1, canAlloc))))
      ensures WellFormed(old(Es())) && ok ==>
        && Es() == UnmapLeft(old(Es()), addr, addr + size, old(count == entries.Length))
        && (UnmapRight(old(Es()), Es(), addr, addr + size)
            <==> !SplitGrows(old(Es()), addr, addr + size, old(count == entries.Length)))
    {
      hide Lookup, Count, Balanced, FramesKept, FramesOk, WellFormed, Refs, UnmapLeft, CutIn, SplitGrows, UnmapRight;
      hide UnmappedUpTo, NoSplit, Stuck;
      FramesKeptRefl(table.objs);
      if size == 0 || (addr + size) % U64 < addr {
        return false;
      }
      var end := (addr + size) % U64;
      ghost var es, cap := Es(), entries.Length;
      ghost var k := 0;
      StartUnmap(addr, end, others);
      var i: nat := 0;
      while i < count
        invariant 0 <= k <= |es| && Fits() && UnmappedUpTo(es, k, i, addr, end, cap, others)
        invariant WellFormed(es) && |es| == cap && Stuck(cap, canAlloc) ==>
          forall j :: 0 <= j < k ==> !ThreeWay(es[j], addr, end)
        invariant FramesKept(old(table.objs), table.objs)
        invariant entries == old(entries) || fresh(entries)
        decreases |es| - k
      {
        ghost var objs := table.objs;
        Unmapping(es, k, i, addr, end, cap, others);
        ok, i := UnmapOne(es, k, i, addr, end, cap, canAlloc, others);
        FramesKeptTrans(old(table.objs), objs, table.objs);
        if !ok {
          return;
        }
        k := k + 1;
      }
      Unmapping(es, k, i, addr, end, cap, others);
      if WellFormed(es) {
        UnmapRightIff(es, addr, end, |es| == cap);
      }
      return true;
    }

    /** vm_object_retain on a pointer out of a stale slot: no effect unless it names an object. */
    method RetainAny(o: nat)
      requires table.Valid()
      modifies table
      ensures table.Valid() && FramesKept(old(table.objs), table.objs) && table.objs.Keys == old(table.objs.Keys)
      ensures RefsShifted(old(table.objs), table.objs, o, 1)
    {
      FramesKeptRefl(table.objs);
      if o in table.objs {
        table.Retain(o);
      }
    }

    /**
     The three-way split of vm_map_protect, with its two shifts by the same count.  The left piece
     is written before the shifts, into the array the entry was found in.
     */
    method SplitInThree(i: nat, left: Entry, middle: Entry, right: Entry, canAlloc: bool)
      returns (ok: bool, ghost stale: Entry)
      requires Fits() && i < count
      modifies this, entries
      ensures Fits() && (entries == old(entries) || fresh(entries))
      ensures !ok ==> Es() == old(Es()) && entries == old(entries) && count == old(count)
      ensures ok <==> !old(Cramped(2, canAlloc))
      ensures ok ==> count == old(count) + 2
      ensures ok && old(count + 2 <= entries.Length) ==> entries == old(entries) && stale == old(entries[count + 1])
      ensures ok && old(count + 2 > entries.Length) ==> entries.Length > count
      ensures ok ==> var first := if old(count + 2 > entries.Length) then old(entries[i]) else left;
        if i == old(count) - 1 then Es() == old(Es()[..i]) + [first, middle, right]
        else Es() == old(Es()[..i]) + [first, middle, right] + (old(Es()[i + 1..count - 1]) + [stale])
    {
      stale := right;
      var before := entries;
      ok := EnsureCapacity(2, canAlloc);
      if !ok {
        return;
      }
      ghost var es, n := Es(), count;
      ghost var first := if before == entries then left else entries[i];
      stale := entries[n + 1];
      before[i] := left;
      ShiftTwice(i, middle, right);
      ThreeFragments(es, i, first, middle, right, stale, Es());
    }

    method ShiftTwice(i: nat, middle: Entry, right: Entry)
      requires i < count && count + 2 <= entries.Length
      modifies entries, this`count
      ensures count == old(count) + 2 <= entries.Length
      ensures forall k :: 0 <= k <= i ==> entries[k] == old(entries[k])
      ensures entries[i + 1] == middle && entries[i + 2] == right
      ensures forall k :: i + 3 <= k <= old(count) ==> entries[k] == old(entries[k - 2])
      ensures i + 3 <= old(count) + 1 ==> entries[old(count) + 1] == old(entries[count + 1])
    {
      ShiftRight(i + 1);
      assert forall k :: i + 2 <= k <= count ==> entries[k] == old(entries[k - 1]);
      ShiftRight(i + 2);
      entries[i + 1] := middle;
      entries[i + 2] := right;
      count := count + 2;
    }

    /** The free places of the entry array. */
    ghost function Room(): int
      reads this
    {
      entries.Length - count
    }

    /** There is an entry to split, and no place for its pieces. */
    ghost predicate NoPlace(addr: nat, end: nat, prot: Prot, canAlloc: bool)
      reads this, entries
    {
      exists i :: 0 <= i < count <= entries.Length && Cramped(Pieces(entries[i], addr, end, prot) - 1, canAlloc)
    }

    lemma {:induction false} FoundNoPlace(i: nat, addr: nat, end: nat, prot: Prot, canAlloc: bool)
      requires i < count <= entries.Length && Cramped(Pieces(entries[i], addr, end, prot) - 1, canAlloc)
      ensures NoPlace(addr, end, prot, canAlloc)
    {
    }

    /** One round of vm_map_protect. */
    method RecolorAt(i: nat, addr: nat, end: nat, prot: Prot, canAlloc: bool)
      returns (ok: bool, next: nat, ghost stale: Entry, ghost grew: bool)
      requires Fits() && table.Valid() && i < count && addr < end
      modifies this, entries, table
      ensures Fits() && table.Valid() && (entries == old(entries) || fresh(entries))
      ensures FramesKept(old(table.objs), table.objs) && table.objs.Keys == old(table.objs.Keys)
      ensures !ok ==> Es() == old(Es()) && table.objs == old(table.objs) && entries == old(entries)
      ensures ok <==> !old(Cramped(Pieces(entries[i], addr, end, prot) - 1, canAlloc))
      ensures !ok ==> Pieces(old(entries[i]), addr, end, prot) > 1 && NoPlace(addr, end, prot, canAlloc)
      ensures ok ==> Rounded(old(Es()), i, Es(), next, stale, grew, addr, end, prot)
      ensures ok ==> RoomUsed(Pieces(old(entries[i]), addr, end, prot), grew, old(Room()), Room())
      ensures ok && !grew && ThreeWay(old(entries[i]), addr, end) ==> stale == old(entries[count + 1])
      ensures !Overlaps(old(entries[i]), addr, end) ==>
        entries == old(entries) && count == old(count) && entries[..] == old(entries[..])
      ensures ok ==>
        RefsShifted(old(table.objs), table.objs, old(entries[i]).obj, Pieces(old(entries[i]), addr, end, prot) - 1)
    {
      hide FramesKept, FramesOk, Refs, Recolored, Recolor, RefsShifted, NoPlace;
      FramesKeptRefl(table.objs);
      RefsUnshifted(table.objs, entries[i].obj);
      RecoloredCases(entries[i], addr, end, prot, false);
      RecoloredCases(entries[i], addr, end, prot, true);
      ok, next := true, i + 1;
      var e := entries[i];
      stale, grew := e, Pieces(e, addr, end, prot) - 1 > Room();
      ghost var es := Es();
      assert es == es[..i] + [e] + es[i + 1..];
      if !Overlaps(e, addr, end) {
        return;
      }
      if addr <= e.start && end >= e.end {
        SetAt(i, e.(prot := prot));
      } else if addr <= e.start && end < e.end {
        ok := SplitAt(i, e.(end := end, prot := prot), Advanced(e, end), canAlloc);
        next := i + 2;
      } else if addr > e.start && end >= e.end {
        ok := SplitAt(i, Advanced(e, addr).(prot := prot), e.(end := addr), canAlloc);
        next := i + 2;
      } else {
        ok, stale := SplitInThree(i, e.(end := addr), Advanced(e, addr).(end := end, prot := prot), Advanced(e, end),
                                  canAlloc);
        next := i + 3;
        if ok {
          RetainTwice(e.obj);
        }
      }
      if !ok {
        FoundNoPlace(i, addr, end, prot, canAlloc);
      }
    }

    method RetainTwice(o: nat)
      requires table.Valid()
      modifies table
      ensures table.Valid() && FramesKept(old(table.objs), table.objs) && table.objs.Keys == old(table.objs.Keys)
      ensures RefsShifted(old(table.objs), table.objs, o, 2)
    {
      ghost var objs := table.objs;
      RetainAny(o);
      ghost var mid := table.objs;
      RetainAny(o);
      FramesKeptTrans(objs, mid, table.objs);
    }

    /**
     The loop of vm_map_protect at index `i`.  Counts are right up to the entries `gone`, which were
     lost with their references, and `come`, which came in without one.  As long as none is lost, the
     entries from `i` on are those of `es` from `k` on.
     */
    ghost predicate Underway(es: seq<Entry>, k: nat, i: nat, addr: nat, end: nat, gone: seq<Entry>, come: seq<Entry>,
                             others: nat -> nat)
      reads this, entries, table
    {
      && Fits() && table.Valid() && i <= count && Owed(table.objs, Es(), others, gone, come) && |gone| == |come|
      && (gone == [] ==> Ahead(es, k, i, Es(), addr, end))
      && (gone != [] ==> !NothingLost(es, addr, end))
    }

    /**
     The same loop on entries `es` in order.  Until one is met the array is as it was: `was` is what
     it held, free places included.
     */
    ghost predicate Ordered(es: seq<Entry>, was: seq<Entry>, k: nat, stale: Entry, again: bool, i: nat, addr: nat,
                            end: nat, prot: Prot, gone: seq<Entry>, come: seq<Entry>)
      requires |es| <= |was|
      reads this, entries
    {
      var room := |was| - |es|;
      && Fits() && Standing(es, k, gone != [], stale, again, i, Es(), addr, end, prot, room)
      && (gone == [] ==> come == [] && Roomy(es, k, addr, end, room, Room()))
      && (gone == [] && NoneMet(es, k, addr, end) ==> count == |es| && entries[..] == was)
      && (gone != [] ==> LostOnce(es, gone, come, stale))
      && (room >= 2 ==> stale == was[|es| + 1])
    }

    method ProtectOne(ghost es: seq<Entry>, ghost was: seq<Entry>, ghost k: nat, ghost stale: Entry, ghost again: bool,
                      i: nat, addr: nat, end: nat, prot: Prot, canAlloc: bool, ghost gone: seq<Entry>,
                      ghost come: seq<Entry>, ghost others: nat -> nat)
      returns (ok: bool, next: nat, ghost k': nat, ghost stale': Entry, ghost again': bool, ghost gone': seq<Entry>,
               ghost come': seq<Entry>)
      requires Underway(es, k, i, addr, end, gone, come, others) && addr < end && i < count && |es| <= |was|
      requires WellFormed(es) ==> Ordered(es, was, k, stale, again, i, addr, end, prot, gone, come)
      modifies this, entries, table
      ensures entries == old(entries) || fresh(entries)
      ensures FramesKept(old(table.objs), table.objs) && table.objs.Keys == old(table.objs.Keys)
      ensures Fits() && Underway(es, k', next, addr, end, gone', come', others)
      ensures ok ==> count - next == old(count) - i - 1
      ensures ok && WellFormed(es) ==> Ordered(es, was, k', stale', again', next, addr, end, prot, gone', come')
      ensures !ok ==> NoPlace(addr, end, prot, canAlloc) && k' == k && stale' == stale && again' == again
      ensures !ok ==> gone' == gone && come' == come
      ensures !ok && WellFormed(es) ==>
        && StoppedAt(es, k, Es(), addr, end, prot, |was| - |es|, stale)
        && Standing(es, k, gone != [], stale, again, next, Es(), addr, end, prot, |was| - |es|)
    {
      hide Count, Balanced, FramesKept, FramesOk, Refs, Recolored, Recolor, WellFormed, Lookup, Leaves, Roomy, Pieces;
      hide RecoloredUpTo, Rounded, ProtectedUpTo, StaleAhead, StoppedAt, RoomUsed, NoneMet, Owed, Ahead, NothingLost;
      hide Standing, NoPlace, Cramped;
      ghost var room := |was| - |es|;
      ghost var objs, now, free := table.objs, Es(), Room();
      assert now[i] == entries[i];
      ghost var slot, grew;
      k', stale', again', gone', come' := k, stale, again, gone, come;
      ok, next, slot, grew := RecolorAt(i, addr, end, prot, canAlloc);
      if !ok {
        if WellFormed(es) {
          Stopping(es, k, now, gone != [], stale, again, i, addr, end, prot, room);
        }
        next := i;
        return;
      }
      gone', come' := RoundOwed(objs, table.objs, now, i, Es(), next, slot, grew, addr, end, prot, others, gone, come);
      if gone == [] {
        RoundAhead(es, k, now, i, Es(), next, slot, grew, addr, end, prot);
        LossShows(es, k, addr, end);
        OneMore(es, k, addr, end);
      }
      k' := if gone' == [] then k + 1 else k;
      if WellFormed(es) {
        RoomFound(es, k, gone != [], stale, again, i, now, grew, free, Room(), addr, end, prot, room);
        ghost var lost;
        k', lost, stale', again' :=
          Round(es, k, gone != [], stale, again, i, now, next, Es(), slot, grew, addr, end, prot, room);
      }
    }

    /**
     vm_map_protect.  Counts stay right up to the entries a three-way split loses and the stale slots
     that come in for them.  On entries in order what it leaves is `Protected`; that is what it
     promises exactly when `ProtectWorks` holds of the entries, the free places and the slot behind the
     next one.  A call that stops for want of room has recoloured the entries before the one it could
     not split.
     */
    method Protect(addr: nat, size: nat, prot: Prot, canAlloc: bool, ghost others: nat -> nat)
      returns (ok: bool, ghost stale: Entry, ghost again: bool, ghost k: nat, ghost gone: seq<Entry>,
               ghost come: seq<Entry>)
      requires Tallied(others) && addr < U64 && size < U64
      modifies this, entries, table
      ensures Fits() && table.Valid() && FramesKept(old(table.objs), table.objs)
      ensures entries == old(entries) || fresh(entries)
      ensures Owed(table.objs, Es(), others, gone, come) && |gone| == |come|
      ensures gone == [] <== NothingLost(old(Es()), addr, addr + size)
      ensures gone == [] ==> Tallied(others) && (ok ==> NothingLost(old(Es()), addr, addr + size))
      ensures size == 0 || addr + size >= U64 ==> !ok && Es() == old(Es())
      ensures !ok && 0 < size < U64 - addr ==> NoPlace(addr, addr + size, prot, canAlloc)
      ensures old(count + 2 <= entries.Length) && WellFormed(old(Es())) ==> stale == old(entries[count + 1])
      ensures gone != [] && WellFormed(old(Es())) ==>
        LostOnce(old(Es()), gone, come, stale) && (Tallied(others) <==> stale.obj == gone[0].obj)
      ensures ok && WellFormed(old(Es())) ==>
        && Es() == Protected(old(Es()), addr, addr + size, prot, old(Room()), stale, again)
        && (ProtectRight(old(Es()), Es(), addr, addr + size, prot)
            <==> ProtectWorks(old(Es()), addr, addr + size, old(Room()), stale))
      ensures !ok && 0 < size < U64 - addr && WellFormed(old(Es())) ==>
        StoppedAt(old(Es()), k, Es(), addr, addr + size, prot, old(Room()), stale)
    {
      hide Count, Balanced, FramesKept, FramesOk, WellFormed, Lookup, Standing, Roomy, NoneMet, Owed, Ahead;
      hide NothingLost, Protected, ProtectRight, ProtectWorks, StoppedAt;
      FramesKeptRefl(table.objs);
      OwedNothing(table.objs, Es(), others);
      stale := if count + 2 <= entries.Length then entries[count + 1] else Entry(0, 0, 0, 0, prot, 0);
      again, k, gone, come := false, 0, [], [];
      if size == 0 || (addr + size) % U64 < addr {
        ok := false;
        return;
      }
      var end := (addr + size) % U64;
      ghost var es, was := Es(), entries[..];
      var i: nat := 0;
      StartProtect(es, addr, end, prot, Room());
      while i < count
        invariant Fits() && Underway(es, k, i, addr, end, gone, come, others)
        invariant WellFormed(es) ==> Ordered(es, was, k, stale, again, i, addr, end, prot, gone, come)
        invariant table.objs.Keys == old(table.objs.Keys) && FramesKept(old(table.objs), table.objs)
        invariant entries == old(entries) || fresh(entries)
        decreases count - i
      {
        ghost var objs := table.objs;
        ok, i, k, stale, again, gone, come :=
          ProtectOne(es, was, k, stale, again, i, addr, end, prot, canAlloc, gone, come, others);
        FramesKeptTrans(old(table.objs), objs, table.objs);
        if !ok {
          SettleOwed(es, k, stale, again, i, addr, end, prot, |was| - |es|, gone, come, old(table.objs), others);
          return;
        }
      }
      SettleOwed(es, k, stale, again, i, addr, end, prot, |was| - |es|, gone, come, old(table.objs), others);
      AheadDone(es, k, i, Es(), addr, end, gone);
      if WellFormed(es) {
        ProtectDone(es, k, gone != [], stale, again, i, Es(), addr, end, prot, |was| - |es|);
        ProtectRightIff(es, addr, end, prot, |was| - |es|, stale, again);
      }
      ok := true;
    }

    /** When the counts are right after all. */
    lemma {:induction false} SettleOwed(es: seq<Entry>, k: nat, stale: Entry, again: bool, i: nat, addr: nat, end: nat,
                                        prot: Prot, room: int, gone: seq<Entry>, come: seq<Entry>, objs: Objects,
                                        others: nat -> nat)
      requires Underway(es, k, i, addr, end, gone, come, others) && Balanced(objs, es, others)
      requires objs.Keys == table.objs.Keys && addr < end
      requires WellFormed(es) ==> Standing(es, k, gone != [], stale, again, i, Es(), addr, end, prot, room)
      requires WellFormed(es) && gone != [] ==> LostOnce(es, gone, come, stale)
      ensures gone == [] ==> Balanced(table.objs, Es(), others)
      ensures gone != [] && WellFormed(es) ==>
        (Balanced(table.objs, Es(), others) <==> stale.obj == es[|es| - 1].obj)
    {
      hide Owed, Balanced, Ahead, NothingLost, WellFormed, Count, Standing;
      if gone == [] {
        OwedBalanced(table.objs, Es(), others, gone, come);
      } else if WellFormed(es) {
        ObjectAlive(objs, es, |es| - 1, others);
        StalePresent(es, k, stale, again, i, Es(), addr, end, prot, room);
        OwedOnce(table.objs, Es(), others, es[|es| - 1], stale);
      }
    }

    /** vm_map_destroy: every entry gives its reference back. */
    method Destroy(ghost others: nat -> nat)
      requires Fits() && table.Valid() && Balanced(table.objs, Es(), others)
      modifies this, entries, table
      ensures Fits() && Es() == [] && table.Valid() && Balanced(table.objs, [], others)
      ensures FramesKept(old(table.objs), table.objs) && fresh(entries)
    {
      hide Count, Balanced, FramesKept, FramesOk, Refs;
      ghost var es := Es();
      FramesKeptRefl(table.objs);
      assert es[0..] == es;
      for i := 0 to count
        invariant Fits() && Es() == es && table.Valid() && Balanced(table.objs, es[i..], others)
        invariant FramesKept(old(table.objs), table.objs)
      {
        ghost var objs := table.objs;
        var e := entries[i];
        assert e == es[i] && es[i..] == [] + [e] + es[i + 1..];
        ObjectAlive(objs, es[i..], 0, others);
        table.Release(e.obj);
        FramesKeptTrans(old(table.objs), objs, table.objs);
        CutBalanced(objs, table.objs, [], e, es[i + 1..], [], others);
        assert [] + [] + es[i + 1..] == es[i + 1..];
      }
      count := 0;
      entries := new Entry[0];
      assert es[|es|..] == [];
    }

    /**
     vm_map_resolve_fault on a shared object: the frame of the page that the entry found says.  On
     entries in order that is what the address means.
     */
    method ResolveFault(addr: nat, write: bool, canGrow: bool, canMap: bool, ghost others: nat -> nat)
      returns (ok: bool, phys: nat, ghost found: int)
      requires Tallied(others) && addr < U64
      requires forall k :: 0 <= k < |Es()| && Covers(Es()[k], addr) ==> Reachable(table.objs, At(Es()[k], addr))
      modifies table
      ensures Tallied(others) && FramesKept(old(table.objs), table.objs) && SameSizes(old(table.objs), table.objs)
      ensures found == -1 || (0 <= found < count && Covers(entries[found], addr))
      ensures WellFormed(Es()) ==> Lookup(Es(), addr) == if found == -1 then Unmapped else At(entries[found], addr)
      ensures found == -1 ==> !ok && table.objs == old(table.objs)
      ensures ok ==> Resolved(table.objs, At(entries[found], addr), write, phys)
      ensures ok <==>
        found != -1 && Resolvable(old(table.objs), old(table.free), At(entries[found], addr), write, canGrow, canMap)
      ensures if ok
        then var m := At(entries[found], addr);
          FrameTaken(old(table.objs), old(table.free), m.obj, m.off / PAGE, ok, phys, table.free)
        else table.free == old(table.free)
    {
      hide Count, FramesKept, FramesOk, Lookup, WellFormed;
      FramesKeptRefl(table.objs);
      ok, phys := false, 0;
      var i := FindEntry(addr);
      found := i;
      if i == -1 {
        return;
      }
      var e := entries[i];
      if !(if write then e.prot.write else e.prot.read) {
        return;
      }
      assert e == Es()[i];
      ObjectAlive(table.objs, Es(), i, others);
      var offset := (addr - e.start + e.off) % U64;
      WholePage(offset);
      ok, phys := table.SharedFault(e.obj, offset - offset % PAGE, canGrow, canMap);
    }
  }

  /** The new entry stands before the first that starts behind it. */
  ghost predicate Inserted(es: seq<Entry>, fs: seq<Entry>, e: Entry) {
    exists i: nat :: InsertionPoint(es, i, e.start) && fs == Insert(es, i, e)
  }

  /** The entry's range, unmapped before, means what the entry says, and nothing else changes. */
  ghost predicate MapRight(es: seq<Entry>, fs: seq<Entry>, e: Entry) {
    && (forall a: nat :: e.start <= a < e.end ==> Lookup(es, a) == Unmapped)
    && (forall a: nat :: Lookup(fs, a) == if Covers(e, a) then At(e, a) else Lookup(es, a))
  }

  /** What vm_map_map accepts. */
  ghost predicate Mappable(es: seq<Entry>, addr: nat, off: nat, size: nat) {
    && size > 0 && addr % PAGE == 0 && size % PAGE == 0 && off % PAGE == 0
    && USER_BASE <= addr && addr + size <= USER_STACK_TOP
    && forall k :: 0 <= k < |es| ==> !Overlaps(es[k], addr, addr + size)
  }

  /** The page of offset `off` starts inside an object of `size` bytes. */
  predicate PageInside(off: nat, size: nat) {
    off - off % PAGE < size
  }

  lemma {:induction false} WholePage(off: nat)
    ensures off >= off % PAGE && (off - off % PAGE) / PAGE == off / PAGE
  {
    assert off - off % PAGE == PAGE * (off / PAGE);
  }

  /** The page lies outside the object or has a number that the doubling of the page array can pass. */
  ghost predicate Reachable(objs: Objects, m: Meaning) {
    m.Mapped? && m.obj in objs && PageInside(m.off, objs[m.obj].size) ==> m.off / PAGE < 0x8000_0000
  }

  /** The access is allowed, the page is inside the object, and has a frame or can get one. */
  ghost predicate Resolvable(objs: Objects, free: set<nat>, m: Meaning, write: bool, canGrow: bool, canMap: bool) {
    && m.Mapped? && (if write then m.prot.write else m.prot.read)
    && m.obj in objs && PageInside(m.off, objs[m.obj].size)
    && Faultable(objs, free, m.obj, m.off / PAGE, canGrow, canMap)
  }

  /** The access is allowed, the page is inside the object, and `phys` is its frame. */
  ghost predicate Resolved(objs: Objects, m: Meaning, write: bool, phys: nat) {
    && m.Mapped? && (if write then m.prot.write else m.prot.read)
    && HasFrame(objs, m.obj, m.off / PAGE) && phys == objs[m.obj].pages[m.off / PAGE]
    && PageInside(m.off, objs[m.obj].size)
  }

  /** Object `o`, if there is one, is counted `change` more times; no other count moved. */
  ghost predicate RefsShifted(objs: Objects, objs': Objects, o: nat, change: int) {
    forall p :: Refs(objs', p) == Refs(objs, p) + (if p == o && o in objs then change else 0)
  }

  lemma {:induction false} RefsUnshifted(objs: Objects, o: nat)
    ensures RefsShifted(objs, objs, o, 0)
  {
  }

  lemma {:induction false} ThreeFragments(es: seq<Entry>, i: nat, left: Entry, middle: Entry, right: Entry,
                                          stale: Entry, fs: seq<Entry>)
    requires i < |es| && |fs| == |es| + 2
    requires forall k :: 0 <= k < i ==> fs[k] == es[k]
    requires fs[i] == left && fs[i + 1] == middle && fs[i + 2] == right
    requires forall k :: i + 3 <= k <= |es| ==> fs[k] == es[k - 2]
    requires i < |es| - 1 ==> fs[|es| + 1] == stale
    ensures i == |es| - 1 ==> fs == es[..i] + [left, middle, right]
    ensures i < |es| - 1 ==> fs == es[..i] + [left, middle, right] + (es[i + 1..|es| - 1] + [stale])
  {
  }

  lemma {:induction false} MappedRight(es: seq<Entry>, i: nat, e: Entry)
    requires WellFormed(es) && e.start < e.end && InsertionPoint(es, i, e.start)
    requires forall k :: 0 <= k < |es| ==> !Overlaps(es[k], e.start, e.end)
    ensures WellFormed(Insert(es, i, e)) && MapRight(es, Insert(es, i, e), e)
  {
    InsertMeaning(es, i, e, 0);
    forall a: nat
      ensures e.start <= a < e.end ==> Lookup(es, a) == Unmapped
      ensures Lookup(Insert(es, i, e), a) == if Covers(e, a) then At(e, a) else Lookup(es, a)
    {
      InsertMeaning(es, i, e, a);
      if Covers(e, a) {
        LookupNone(es, a);
      }
    }
  }

  lemma {:induction false} InsertBalanced(objs: Objects, objs': Objects, es: seq<Entry>, i: nat, e: Entry,
                                          others: nat -> nat)
    requires Balanced(objs, es, others) && i <= |es|
    requires e.obj in objs && RefsShifted(objs, objs', e.obj, 1)
    requires forall o :: o in objs' ==> objs'[o].refs > 0
    ensures Balanced(objs', Insert(es, i, e), others)
  {
    forall o
      ensures Count(Insert(es, i, e), o) == Count(es, o) + (if o == e.obj then 1 else 0)
    {
      CountConcat(es[..i] + [e], es[i..], o);
      CountConcat(es[..i], [e], o);
      CountConcat(es[..i], es[i..], o);
      assert es == es[..i] + es[i..];
      CountOne(e, o);
    }
  }

  lemma {:induction false} CountOne(e: Entry, o: nat)
    ensures Count([e], o) == if o == e.obj then 1 else 0
  {
    assert Count([], o) == 0;
    assert [e][..0] == [];
  }

  /** The first `k` entries of `es` have been dealt with; the next one sits at index `i`. */
  ghost predicate UnmappedTo(es: seq<Entry>, k: nat, i: nat, now: seq<Entry>, len: nat, addr: nat, end: nat, cap: nat)
    requires k <= |es|
  {
    var full := |es| == cap;
    && now == UnmapLeft(es[..k], addr, end, full) + es[k..] && i == |UnmapLeft(es[..k], addr, end, full)|
    && ((forall j :: 0 <= j < k ==> !Overlaps(es[j], addr, end)) ==> len == cap && |now| == |es|)
  }

  /** The entry at hand, and the room its split finds. */
  lemma {:induction false} UnmappedNext(es: seq<Entry>, k: nat, i: nat, now: seq<Entry>, len: nat, addr: nat, end: nat,
                                        cap: nat)
    requires WellFormed(es) && k < |es| && UnmappedTo(es, k, i, now, len, addr, end, cap)
    ensures i < |now| && now[i] == es[k] && now[i + 1..] == es[k + 1..]
    ensures now[..i] == UnmapLeft(es[..k], addr, end, |es| == cap)
    ensures CutIn(es[k], addr, end, |now| == len) == CutIn(es[k], addr, end, |es| == cap)
    ensures ThreeWay(es[k], addr, end) ==> now == es && len == cap
  {
    hide UnmapLeft, CutIn;
    SplitFindsRoom(es, k, addr, end, |es| == cap, |now| == len);
    if ThreeWay(es[k], addr, end) {
      UnmapBefore(es, k, addr, end, |es| == cap);
      assert es[..k] + es[k..] == es;
    }
  }

  lemma {:induction false} UnmappedMore(es: seq<Entry>, k: nat, i: nat, now: seq<Entry>, len: nat, addr: nat, end: nat,
                                        cap: nat, len': nat)
    requires WellFormed(es) && k < |es| && UnmappedTo(es, k, i, now, len, addr, end, cap)
    requires !Overlaps(es[k], addr, end) ==> len' == len
    ensures i < |now|
    ensures var fs := CutIn(now[i], addr, end, |now| == len);
      UnmappedTo(es, k + 1, i + |fs|, now[..i] + fs + now[i + 1..], len', addr, end, cap)
  {
    UnmappedNext(es, k, i, now, len, addr, end, cap);
    assert !Overlaps(es[k], addr, end) ==> |CutIn(es[k], addr, end, |now| == len)| == 1;
    hide UnmapLeft, CutIn, WellFormed;
    UnmapStep(es, k, addr, end, |es| == cap);
  }

  /** The array cannot be made longer than `cap`. */
  ghost predicate Stuck(cap: nat, canAlloc: bool) {
    !canAlloc || 2 * cap > MAX_CAPACITY
  }

  lemma {:induction false} FramesKeptRefl(objs: Objects)
    ensures FramesKept(objs, objs)
  {
  }

  /** An entry that the range splits is the first it meets, so the room is what it was at the start. */
  lemma {:induction false} SplitFindsRoom(es: seq<Entry>, k: nat, addr: nat, end: nat, full: bool, now: bool)
    requires WellFormed(es) && k < |es|
    requires (forall j :: 0 <= j < k ==> !Overlaps(es[j], addr, end)) ==> (full <==> now)
    ensures CutIn(es[k], addr, end, now) == CutIn(es[k], addr, end, full)
  {
  }

  lemma {:induction false} CutObj(e: Entry, addr: nat, end: nat, full: bool)
    ensures forall f :: f in CutIn(e, addr, end, full) ==> f.obj == e.obj
  {
  }

  /** An entry's object is alive: its count is not zero. */
  lemma {:induction false} ObjectAlive(objs: Objects, es: seq<Entry>, i: nat, others: nat -> nat)
    requires Balanced(objs, es, others) && i < |es|
    ensures es[i].obj in objs
  {
    CountMember(es, i);
    assert Refs(objs, es[i].obj) > 0;
  }

  lemma {:induction false} FramesKeptTrans(a: Objects, b: Objects, c: Objects)
    requires FramesKept(a, b) && FramesKept(b, c) && c.Keys <= b.Keys
    ensures FramesKept(a, c)
  {
  }

  lemma {:induction false} CountFragments(e: Entry, fs: seq<Entry>, o: nat)
    requires forall f :: f in fs ==> f.obj == e.obj
    ensures Count(fs, o) == if o == e.obj then |fs| else 0
  {
    if fs != [] {
      assert fs[|fs| - 1] in fs;
      CountFragments(e, fs[..|fs| - 1], o);
    }
  }

  /** Replacing an entry by fragments of it shifts its object's count by as many entries. */
  lemma {:induction false} CutBalanced(objs: Objects, objs': Objects, a: seq<Entry>, e: Entry, b: seq<Entry>,
                                       fs: seq<Entry>, others: nat -> nat)
    requires Balanced(objs, a + [e] + b, others)
    requires forall f :: f in fs ==> f.obj == e.obj
    requires RefsShifted(objs, objs', e.obj, |fs| - 1)
    requires forall o :: o in objs' ==> objs'[o].refs > 0
    ensures Balanced(objs', a + fs + b, others)
  {
    forall o
      ensures Count(a + fs + b, o) - Count(fs, o) == Count(a + [e] + b, o) - Count([e], o)
    {
      CountConcat(a + fs, b, o);
      CountConcat(a, fs, o);
      CountConcat(a + [e], b, o);
      CountConcat(a, [e], o);
    }
    ObjectAlive(objs, a + [e] + b, |a|, others);
    forall o
      ensures Refs(objs', o) == Count(a + fs + b, o) + others(o)
    {
      CountFragments(e, fs, o);
      CountOne(e, o);
    }
  }

  /** How many entries a round of vm_map_protect makes of one. */
  ghost function Pieces(e: Entry, addr: nat, end: nat, prot: Prot): nat {
    |Recolored(e, addr, end, prot, false)|
  }

  lemma {:induction false} RecoloredCases(e: Entry, addr: nat, end: nat, prot: Prot, grew: bool)
    requires addr < end
    ensures Recolored(e, addr, end, prot, grew) ==
      if !Overlaps(e, addr, end) then [e]
      else if addr <= e.start && end >= e.end then [e.(prot := prot)]
      else if addr <= e.start then [if grew then e else e.(end := end, prot := prot), Advanced(e, end)]
      else if end >= e.end then [if grew then e else Advanced(e, addr).(prot := prot), e.(end := addr)]
      else [if grew then e else e.(end := addr), Advanced(e, addr).(end := end, prot := prot), Advanced(e, end)]
  {
  }

  /** The array grows exactly when the new pieces do not fit, and then has a place to spare. */
  ghost predicate RoomUsed(pieces: int, grew: bool, before: int, after: int) {
    && grew == (pieces - 1 > before)
    && (if grew then after >= 1 else after == before - (pieces - 1))
  }

  /** What one round of vm_map_protect does to the entries `now`, at index `i`. */
  ghost predicate Rounded(now: seq<Entry>, i: nat, fs: seq<Entry>, next: nat, stale: Entry, grew: bool, addr: nat,
                          end: nat, prot: Prot) {
    && i < |now|
    && next == i + |Recolored(now[i], addr, end, prot, grew)|
    && fs == now[..i] + Recolored(now[i], addr, end, prot, grew) +
             (if ThreeWay(now[i], addr, end) && i < |now| - 1 then now[i + 1..|now| - 1] + [stale] else now[i + 1..])
  }

  /** No last entry lost yet: the first `k` entries are done and the next one sits at `i`. */
  ghost predicate ProtectedUpTo(es: seq<Entry>, k: nat, i: nat, now: seq<Entry>, addr: nat, end: nat, prot: Prot,
                                room: int)
    requires k <= |es|
  {
    var done := RecoloredUpTo(es, k, Leaves(es, addr, end, prot, room));
    && (forall d :: d < k ==> !DropsLast(es, d, addr, end))
    && now == done + es[k..] && i == |done|
  }

  /** The last entry is lost; the stale one is ahead, with nothing before it to do, or done. */
  ghost predicate StaleAhead(front: seq<Entry>, stale: Entry, again: bool, i: nat, now: seq<Entry>, addr: nat, end: nat,
                             prot: Prot) {
    || (now == front + [stale] && i <= |front| && forall j :: i <= j < |front| ==> !Overlaps(front[j], addr, end))
    || (now == front + Recolored(stale, addr, end, prot, again) && i == |now| > |front|)
  }

  /** Where the loop of vm_map_protect stands. */
  ghost predicate Standing(es: seq<Entry>, k: nat, lost: bool, stale: Entry, again: bool, i: nat, now: seq<Entry>,
                           addr: nat, end: nat, prot: Prot, room: int) {
    && k <= |es|
    && (!lost ==> ProtectedUpTo(es, k, i, now, addr, end, prot, room))
    && (lost ==> DropsLast(es, k, addr, end) &&
                 StaleAhead(Front(es, k, addr, end, prot, room), stale, again, i, now, addr, end, prot))
  }

  /** None of the first `k` entries meets the range. */
  ghost predicate NoneMet(es: seq<Entry>, k: nat, addr: nat, end: nat) {
    k <= |es| && forall j :: 0 <= j < k ==> !Overlaps(es[j], addr, end)
  }

  lemma {:induction false} OneMore(es: seq<Entry>, k: nat, addr: nat, end: nat)
    requires k < |es|
    ensures NoneMet(es, k + 1, addr, end) <==> NoneMet(es, k, addr, end) && !Overlaps(es[k], addr, end)
  {
  }

  /** The free places left after the first `k` entries, until one reaches beyond the range. */
  ghost predicate Roomy(es: seq<Entry>, k: nat, addr: nat, end: nat, room: int, now: int) {
    k <= |es| &&
    ((forall j :: 0 <= j < k ==> !LeftPartial(es[j], addr, end) && !ThreeWay(es[j], addr, end)) ==>
      if exists j :: 0 <= j < k && RightPartial(es[j], addr, end) then (if room == 0 then now >= 1 else now == room - 1)
      else now == room)
  }

  /** A split finds the room that `Grows` goes by. */
  lemma {:induction false} RoomyGrows(es: seq<Entry>, k: nat, addr: nat, end: nat, prot: Prot, room: int, now: int)
    requires WellFormed(es) && addr < end && k < |es| && Roomy(es, k, addr, end, room, now) && room >= 0
    requires Pieces(es[k], addr, end, prot) > 1
    ensures Pieces(es[k], addr, end, prot) - 1 > now <==> Grows(es, addr, end, room, es[k])
  {
    assert forall j :: 0 <= j < k ==> es[j].end <= es[k].start;
    if !StrictlyInside(es[k], addr) {
      assert LeftPartial(es[k], addr, end);
      assert forall j :: 0 <= j < |es| && RightPartial(es[j], addr, end) ==> j < k;
    }
  }

  lemma {:induction false} RoomyStep(es: seq<Entry>, k: nat, addr: nat, end: nat, prot: Prot, room: int, before: int,
                                     grew: bool, after: int)
    requires WellFormed(es) && addr < end && k < |es| && Roomy(es, k, addr, end, room, before) && room >= 0
    requires RoomUsed(Pieces(es[k], addr, end, prot), grew, before, after)
    ensures Roomy(es, k + 1, addr, end, room, after)
  {
    var e := es[k];
    assert forall j :: 0 <= j < k ==> es[j].end <= e.start;
    if forall j :: 0 <= j < k + 1 ==> !LeftPartial(es[j], addr, end) && !ThreeWay(es[j], addr, end) {
      if RightPartial(e, addr, end) {
        assert forall j :: 0 <= j < k ==> !RightPartial(es[j], addr, end);
      } else {
        assert Pieces(e, addr, end, prot) <= 1;
      }
    }
  }

  /** The round at hand in terms of the entry it works on. */
  lemma {:induction false} AtHand(es: seq<Entry>, k: nat, i: nat, now: seq<Entry>, addr: nat, end: nat, prot: Prot,
                                  room: int)
    requires k <= |es| && i < |now| && ProtectedUpTo(es, k, i, now, addr, end, prot, room)
    ensures k < |es| && now[i] == es[k]
    ensures now[..i] == RecoloredUpTo(es, k, Leaves(es, addr, end, prot, room)) && now[i + 1..] == es[k + 1..]
  {
  }

  lemma {:induction false} RoomFound(es: seq<Entry>, k: nat, lost: bool, stale: Entry, again: bool, i: nat,
                                     now: seq<Entry>, grew: bool, before: int, after: int, addr: nat, end: nat,
                                     prot: Prot, room: int)
    requires WellFormed(es) && addr < end && i < |now| && room >= 0
    requires Standing(es, k, lost, stale, again, i, now, addr, end, prot, room)
    requires !lost ==> Roomy(es, k, addr, end, room, before)
    requires RoomUsed(Pieces(now[i], addr, end, prot), grew, before, after)
    ensures !lost ==> k < |es| && now[i] == es[k] && Roomy(es, k + 1, addr, end, room, after)
    ensures !lost ==> Recolored(es[k], addr, end, prot, grew) == Leaves(es, addr, end, prot, room)(es[k])
  {
    if !lost {
      AtHand(es, k, i, now, addr, end, prot, room);
      hide Roomy, ProtectedUpTo, WellFormed, Grows;
      RoomyStep(es, k, addr, end, prot, room, before, grew, after);
      if Pieces(es[k], addr, end, prot) > 1 {
        RoomyGrows(es, k, addr, end, prot, room, before);
      }
    }
  }

  lemma {:induction false} RoundAfterLoss(front: seq<Entry>, stale: Entry, again: bool, i: nat, now: seq<Entry>,
                                          next: nat, fs: seq<Entry>, slot: Entry, grew: bool, addr: nat, end: nat,
                                          prot: Prot)
    returns (again': bool)
    requires addr < end && i < |now| && StaleAhead(front, stale, again, i, now, addr, end, prot)
    requires Rounded(now, i, fs, next, slot, grew, addr, end, prot)
    ensures StaleAhead(front, stale, again', next, fs, addr, end, prot) && i <= |front| && next > i
    ensures !(ThreeWay(now[i], addr, end) && i < |now| - 1)
  {
    again' := grew;
    assert now == now[..i] + [now[i]] + now[i + 1..];
    if i == |front| {
      assert now[..i] == front && now[i + 1..] == [];
    }
  }

  lemma {:induction false} RoundWithoutLoss(es: seq<Entry>, k: nat, i: nat, now: seq<Entry>, next: nat, fs: seq<Entry>,
                                            slot: Entry, grew: bool, addr: nat, end: nat, prot: Prot, room: int)
    requires k < |es| && i < |now| && ProtectedUpTo(es, k, i, now, addr, end, prot, room) && addr < end
    requires Rounded(now, i, fs, next, slot, grew, addr, end, prot) && !DropsLast(es, k, addr, end)
    requires Recolored(es[k], addr, end, prot, grew) == Leaves(es, addr, end, prot, room)(es[k])
    ensures ProtectedUpTo(es, k + 1, next, fs, addr, end, prot, room) && !(ThreeWay(now[i], addr, end) && i < |now| - 1)
  {
    hide Recolored, RecoloredUpTo, Leaves;
    AtHand(es, k, i, now, addr, end, prot, room);
    RecolorStep(es, k, Leaves(es, addr, end, prot, room));
  }

  lemma {:induction false} RoundWithLoss(es: seq<Entry>, k: nat, i: nat, now: seq<Entry>, next: nat, fs: seq<Entry>,
                                         slot: Entry, grew: bool, addr: nat, end: nat, prot: Prot, room: int)
    requires WellFormed(es) && addr < end
    requires k < |es| && i < |now| && ProtectedUpTo(es, k, i, now, addr, end, prot, room) && now[i] == es[k]
    requires Rounded(now, i, fs, next, slot, grew, addr, end, prot) && DropsLast(es, k, addr, end)
    requires Recolored(es[k], addr, end, prot, grew) == Leaves(es, addr, end, prot, room)(es[k])
    ensures StaleAhead(Front(es, k, addr, end, prot, room), slot, false, next, fs, addr, end, prot)
  {
    hide RecoloredUpTo, WellFormed, Recolored, Recolor;
    BeforeSplit(es, k, addr, end, prot, room);
    FrontClear(es, k, addr, end, prot, room);
    RecoloredCases(es[k], addr, end, prot, grew);
    assert now == es[..k] + es[k..] == es;
    var front := Front(es, k, addr, end, prot, room);
    assert fs == front + [slot];
  }

  lemma {:induction false} FrontClear(es: seq<Entry>, d: int, addr: nat, end: nat, prot: Prot, room: int)
    requires WellFormed(es) && addr < end && DropsLast(es, d, addr, end)
    ensures var front := Front(es, d, addr, end, prot, room);
      |front| == |es| + 1 && forall j :: d + 3 <= j < |front| ==> !Overlaps(front[j], addr, end)
  {
    var front := Front(es, d, addr, end, prot, room);
    assert forall j :: d + 3 <= j < |front| ==> front[j] == es[j - 2];
  }

  lemma {:induction false} Round(es: seq<Entry>, k: nat, lost: bool, stale: Entry, again: bool, i: nat, now: seq<Entry>,
                                 next: nat, fs: seq<Entry>, slot: Entry, grew: bool, addr: nat, end: nat, prot: Prot,
                                 room: int)
    returns (k': nat, lost': bool, stale': Entry, again': bool)
    requires WellFormed(es) && addr < end && i < |now|
    requires Standing(es, k, lost, stale, again, i, now, addr, end, prot, room)
    requires Rounded(now, i, fs, next, slot, grew, addr, end, prot)
    requires !lost ==> k < |es| && now[i] == es[k]
    requires !lost ==> Recolored(es[k], addr, end, prot, grew) == Leaves(es, addr, end, prot, room)(es[k])
    ensures Standing(es, k', lost', stale', again', next, fs, addr, end, prot, room)
    ensures lost ==> lost' && k' == k && stale' == stale && i <= |es| + 1 && next > i
    ensures lost ==> !(ThreeWay(now[i], addr, end) && i < |now| - 1)
    ensures !lost ==> (lost' <==> DropsLast(es, k, addr, end))
    ensures !lost && lost' ==> k' == k && stale' == slot && (grew <==> room < 2)
    ensures !lost && lost' ==> NoneMet(es, k, addr, end)
    ensures !lost' ==> k' == k + 1 && stale' == stale && !(ThreeWay(now[i], addr, end) && i < |now| - 1)
  {
    k', lost', stale', again' := k, lost, stale, again;
    if lost {
      FrontClear(es, k, addr, end, prot, room);
      again' := RoundAfterLoss(Front(es, k, addr, end, prot, room), stale, again, i, now, next, fs, slot, grew, addr,
                               end, prot);
    } else if DropsLast(es, k, addr, end) {
      RoundWithLoss(es, k, i, now, next, fs, slot, grew, addr, end, prot, room);
      BeforeSplit(es, k, addr, end, prot, room);
      LossGrows(es, k, addr, end, prot, room, grew);
      lost', stale', again' := true, slot, false;
    } else {
      RoundWithoutLoss(es, k, i, now, next, fs, slot, grew, addr, end, prot, room);
      k' := k + 1;
    }
  }

  lemma {:induction false} LossGrows(es: seq<Entry>, k: nat, addr: nat, end: nat, prot: Prot, room: int, grew: bool)
    requires addr < end && DropsLast(es, k, addr, end)
    requires Recolored(es[k], addr, end, prot, grew) == Leaves(es, addr, end, prot, room)(es[k])
    ensures grew <==> room < 2
  {
    var e := es[k];
    assert Recolored(e, addr, end, prot, true)[0] == e && Recolored(e, addr, end, prot, false)[0] == e.(end := addr);
  }

  /**
   The counts, where the entries `gone` were lost with their references and the entries `come` came in
   without one.  An entry whose object is not alive can only be one that came in.
   */
  ghost predicate Owed(objs: Objects, es: seq<Entry>, others: nat -> nat, gone: seq<Entry>, come: seq<Entry>) {
    && (forall o :: o in objs ==> objs[o].refs > 0)
    && (forall o :: o in objs ==> Refs(objs, o) + Count(come, o) == Count(es, o) + others(o) + Count(gone, o))
    && (forall o :: o !in objs ==> others(o) == 0 && (Count(come, o) == 0 ==> Count(es, o) == Count(gone, o) == 0))
  }

  lemma {:induction false} OwedNothing(objs: Objects, es: seq<Entry>, others: nat -> nat)
    requires Balanced(objs, es, others)
    ensures Owed(objs, es, others, [], [])
  {
    hide Count;
    CountEmpty();
    assert forall o :: o !in objs ==> Refs(objs, o) == 0;
  }

  lemma {:induction false} CountEmpty()
    ensures forall o :: Count([], o) == 0
  {
  }

  /** One three-way split has lost the last entry and taken the stale slot in its place. */
  ghost predicate LostOnce(es: seq<Entry>, gone: seq<Entry>, come: seq<Entry>, stale: Entry) {
    es != [] && gone == [es[|es| - 1]] && come == [stale]
  }

  /** What came in names living objects, and object by object as much of it as was lost. */
  ghost predicate Cancels(objs: Objects, gone: seq<Entry>, come: seq<Entry>) {
    && (forall e :: e in come ==> e.obj in objs)
    && (forall o :: Count(gone, o) == Count(come, o))
  }

  lemma {:induction false} NotNamed(es: seq<Entry>, o: nat)
    requires forall e :: e in es ==> e.obj != o
    ensures Count(es, o) == 0
  {
    if es != [] {
      assert es[|es| - 1] in es;
      NotNamed(es[..|es| - 1], o);
    }
  }

  /** If what came in names living objects, the counts are right if and only if the two cancel. */
  lemma {:induction false} OwedIff(objs: Objects, es: seq<Entry>, others: nat -> nat, gone: seq<Entry>,
                                   come: seq<Entry>)
    requires Owed(objs, es, others, gone, come) && forall e :: e in come ==> e.obj in objs
    ensures Balanced(objs, es, others) <==> Cancels(objs, gone, come)
  {
    hide Count;
    forall o | o !in objs
      ensures Count(come, o) == Count(gone, o) == Count(es, o) == 0
    {
      NotNamed(come, o);
    }
    if Balanced(objs, es, others) {
      assert forall o :: Refs(objs, o) == Count(es, o) + others(o);
    }
  }

  lemma {:induction false} OwedBalanced(objs: Objects, es: seq<Entry>, others: nat -> nat, gone: seq<Entry>,
                                        come: seq<Entry>)
    requires Owed(objs, es, others, gone, come) && gone == [] && come == []
    ensures Balanced(objs, es, others)
  {
    OwedIff(objs, es, others, gone, come);
  }

  lemma {:induction false} OwedOnce(objs: Objects, es: seq<Entry>, others: nat -> nat, last: Entry, stale: Entry)
    requires Owed(objs, es, others, [last], [stale]) && last.obj in objs && Count(es, stale.obj) > 0
    ensures Balanced(objs, es, others) <==> stale.obj == last.obj
  {
    hide Count;
    CountOne(last, last.obj);
    CountOne(stale, last.obj);
    if stale.obj in objs {
      OwedIff(objs, es, others, [last], [stale]);
      if stale.obj == last.obj {
        forall o
          ensures Count([last], o) == Count([stale], o)
        {
          CountOne(last, o);
          CountOne(stale, o);
        }
      }
    } else {
      assert Refs(objs, stale.obj) == 0;
    }
  }

  /** A round replaces one entry by pieces of it; a three-way split with a successor also exchanges the last. */
  lemma {:induction false} RoundCount(now: seq<Entry>, i: nat, fs: seq<Entry>, next: nat, slot: Entry, grew: bool,
                                      addr: nat, end: nat, prot: Prot, o: nat)
    requires Rounded(now, i, fs, next, slot, grew, addr, end, prot)
    ensures |fs| - next == |now| - i - 1
    ensures var drop := ThreeWay(now[i], addr, end) && i < |now| - 1;
      Count(fs, o) + (if drop && now[|now| - 1].obj == o then 1 else 0) ==
      Count(now, o) + (if now[i].obj == o then Pieces(now[i], addr, end, prot) - 1 else 0) +
        (if drop && slot.obj == o then 1 else 0)
  {
    hide Count, Recolored;
    var e, r, n := now[i], Recolored(now[i], addr, end, prot, grew), |now| - 1;
    RecolorObj(e, addr, end, prot, grew);
    CountFragments(e, r, o);
    CountOne(e, o);
    var rest := now[i + 1..];
    assert now == now[..i] + [e] + rest;
    CountConcat(now[..i] + [e], rest, o);
    CountConcat(now[..i], [e], o);
    var back := fs[i + |r|..];
    assert fs == now[..i] + r + back;
    CountConcat(now[..i] + r, back, o);
    CountConcat(now[..i], r, o);
    if ThreeWay(e, addr, end) && i < n {
      assert back == now[i + 1..n] + [slot] && rest == now[i + 1..n] + [now[n]];
      CountConcat(now[i + 1..n], [slot], o);
      CountConcat(now[i + 1..n], [now[n]], o);
      CountOne(slot, o);
      CountOne(now[n], o);
    } else {
      assert back == rest;
    }
  }

  lemma {:induction false} RoundOwed(objs: Objects, objs': Objects, now: seq<Entry>, i: nat, fs: seq<Entry>, next: nat,
                                     slot: Entry, grew: bool, addr: nat, end: nat, prot: Prot, others: nat -> nat,
                                     gone: seq<Entry>, come: seq<Entry>)
    returns (gone': seq<Entry>, come': seq<Entry>)
    requires i < |now| && Rounded(now, i, fs, next, slot, grew, addr, end, prot)
    requires Owed(objs, now, others, gone, come)
    requires objs'.Keys == objs.Keys && forall o :: o in objs' ==> objs'[o].refs > 0
    requires RefsShifted(objs, objs', now[i].obj, Pieces(now[i], addr, end, prot) - 1)
    ensures Owed(objs', fs, others, gone', come') && |fs| - next == |now| - i - 1
    ensures var drop := ThreeWay(now[i], addr, end) && i < |now| - 1;
      && gone' == (if drop then gone + [now[|now| - 1]] else gone)
      && come' == (if drop then come + [slot] else come)
  {
    hide Count, Rounded, Pieces;
    var drop, last := ThreeWay(now[i], addr, end) && i < |now| - 1, now[|now| - 1];
    gone' := if drop then gone + [last] else gone;
    come' := if drop then come + [slot] else come;
    RoundCount(now, i, fs, next, slot, grew, addr, end, prot, 0);
    forall o
      ensures Count(fs, o) + Count(gone', o) - Count(come', o) == Count(now, o) + Count(gone, o) - Count(come, o) +
        (if now[i].obj == o then Pieces(now[i], addr, end, prot) - 1 else 0)
      ensures Count(come', o) >= Count(come, o)
      ensures o !in objs && Count(come', o) == 0 ==> Count(fs, o) == Count(gone', o) == 0
    {
      RoundCount(now, i, fs, next, slot, grew, addr, end, prot, o);
      CountConcat(gone, [last], o);
      CountConcat(come, [slot], o);
      CountOne(last, o);
      CountOne(slot, o);
      CountMember(now, i);
      CountMember(now, |now| - 1);
    }
  }

  /** None lost so far: the entries from `i` on are those of `es` from `k` on. */
  ghost predicate Ahead(es: seq<Entry>, k: nat, i: nat, now: seq<Entry>, addr: nat, end: nat) {
    k <= |es| && i <= |now| && now[i..] == es[k..] && forall d :: d < k ==> !DropsLast(es, d, addr, end)
  }

  lemma {:induction false} RoundAhead(es: seq<Entry>, k: nat, now: seq<Entry>, i: nat, fs: seq<Entry>, next: nat,
                                      slot: Entry, grew: bool, addr: nat, end: nat, prot: Prot)
    requires Rounded(now, i, fs, next, slot, grew, addr, end, prot) && Ahead(es, k, i, now, addr, end) && addr < end
    ensures k < |es| && now[i] == es[k] && now[|now| - 1] == es[|es| - 1]
    ensures var drop := ThreeWay(now[i], addr, end) && i < |now| - 1;
      (drop <==> DropsLast(es, k, addr, end)) && (!drop ==> Ahead(es, k + 1, next, fs, addr, end))
  {
    hide Recolored;
    assert now[i..][0] == now[i] && es[k..][0] == es[k] && |now[i..]| == |es[k..]|;
    assert now[i..][|now| - 1 - i] == now[|now| - 1] && es[k..][|es| - 1 - k] == es[|es| - 1];
    assert now[i + 1..] == now[i..][1..] && es[k + 1..] == es[k..][1..];
  }

  lemma {:induction false} LossShows(es: seq<Entry>, k: nat, addr: nat, end: nat)
    ensures DropsLast(es, k, addr, end) ==> !NothingLost(es, addr, end)
  {
  }

  lemma {:induction false} AheadDone(es: seq<Entry>, k: nat, i: nat, now: seq<Entry>, addr: nat, end: nat,
                                     gone: seq<Entry>)
    requires gone == [] ==> Ahead(es, k, i, now, addr, end)
    requires i == |now|
    ensures gone == [] ==> NothingLost(es, addr, end)
  {
    if gone == [] {
      assert |now[i..]| == 0 == |es[k..]|;
    }
  }

  lemma {:induction false} StalePresent(es: seq<Entry>, k: nat, stale: Entry, again: bool, i: nat, now: seq<Entry>,
                                        addr: nat, end: nat, prot: Prot, room: int)
    requires Standing(es, k, true, stale, again, i, now, addr, end, prot, room)
    ensures Count(now, stale.obj) > 0
  {
    hide Count;
    RecolorObj(stale, addr, end, prot, again);
    CountMember(now, |now| - 1);
  }

  lemma {:induction false} RecolorObj(e: Entry, addr: nat, end: nat, prot: Prot, grew: bool)
    ensures forall f :: f in Recolored(e, addr, end, prot, grew) ==> f.obj == e.obj
    ensures |Recolored(e, addr, end, prot, grew)| == Pieces(e, addr, end, prot)
  {
  }

  /** No entry with a successor reaches beyond the range on both sides. */
  ghost predicate NothingLost(es: seq<Entry>, addr: nat, end: nat) {
    forall i :: 0 <= i < |es| - 1 ==> !DropsLast(es, i, addr, end)
  }

  lemma {:induction false} StartProtect(es: seq<Entry>, addr: nat, end: nat, prot: Prot, room: int)
    ensures Roomy(es, 0, addr, end, room, room) && Ahead(es, 0, 0, es, addr, end)
    ensures forall stale, again :: Standing(es, 0, false, stale, again, 0, es, addr, end, prot, room)
  {
  }

  lemma {:induction false} ProtectDone(es: seq<Entry>, k: nat, lost: bool, stale: Entry, again: bool, i: nat,
                                       fs: seq<Entry>, addr: nat, end: nat, prot: Prot, room: int)
    requires WellFormed(es) && addr < end && i >= |fs|
    requires Standing(es, k, lost, stale, again, i, fs, addr, end, prot, room)
    ensures fs == Protected(es, addr, end, prot, room, stale, again)
    ensures NothingLost(es, addr, end) ==> !lost
  {
    if lost {
      DropsLastIs(es, addr, end, prot, room, stale, again, k);
    } else {
      assert k == |es|;
      assert fs == RecoloredUpTo(es, |es|, Leaves(es, addr, end, prot, room));
      NoDropIs(es, addr, end, prot, room, stale, again);
    }
  }

  /**
   Where a call that finds no room stops: before an entry to split, the ones before it done.  Unless
   the range starts inside an entry, it has protected exactly the range up to that entry.
   */
  ghost predicate StoppedAt(es: seq<Entry>, k: nat, now: seq<Entry>, addr: nat, end: nat, prot: Prot, room: int,
                            stale: Entry) {
    && k < |es|
    && (|| now == RecoloredUpTo(es, k, Leaves(es, addr, end, prot, room)) + es[k..]
        || (DropsLast(es, k, addr, end) && now == Front(es, k, addr, end, prot, room) + [stale]))
    && (NotInside(es, addr) ==> LeftPartial(es[k], addr, end) && ProtectRight(es, now, addr, es[k].start, prot))
  }

  lemma {:induction false} Stopping(es: seq<Entry>, k: nat, now: seq<Entry>, lost: bool, stale: Entry, again: bool,
                                    i: nat, addr: nat, end: nat, prot: Prot, room: int)
    requires WellFormed(es) && addr < end && i < |now| && Pieces(now[i], addr, end, prot) > 1
    requires Standing(es, k, lost, stale, again, i, now, addr, end, prot, room)
    ensures StoppedAt(es, k, now, addr, end, prot, room, stale)
    ensures NothingLost(es, addr, end) ==> !lost
  {
    if !lost {
      AtHand(es, k, i, now, addr, end, prot, room);
      if NotInside(es, addr) {
        assert !StrictlyInside(es[k], addr);
        PrefixDone(es, k, addr, end, prot, room);
      }
    }
  }

  /** The entries before the one at the end of the range are recoloured: its start is how far the call got. */
  lemma {:induction false} PrefixDone(es: seq<Entry>, k: nat, addr: nat, end: nat, prot: Prot, room: int)
    requires WellFormed(es) && addr < end && k < |es| && NotInside(es, addr) && LeftPartial(es[k], addr, end)
    ensures ProtectRight(es, RecoloredUpTo(es, k, Leaves(es, addr, end, prot, room)) + es[k..], addr, es[k].start, prot)
  {
    hide RecoloredUpTo, Rewrite, Lookup, Recolor, Leaves;
    PrefixRewritten(es, k, addr, end, prot, room);
    if addr < es[k].start {
      WantedRight(es, addr, es[k].start, prot);
    } else {
      NothingToDo(es, addr, prot);
    }
  }

  lemma {:induction false} PrefixRewritten(es: seq<Entry>, k: nat, addr: nat, end: nat, prot: Prot, room: int)
    requires WellFormed(es) && addr < end && k < |es| && NotInside(es, addr) && LeftPartial(es[k], addr, end)
    ensures RecoloredUpTo(es, k, Leaves(es, addr, end, prot, room)) + es[k..]
         == Rewrite(es, e => Recolor(e, addr, es[k].start, prot))
  {
    hide Rewrite, Leaves, Recolor, WellFormed;
    var g := e => Recolor(e, addr, es[k].start, prot);
    PrefixSame(es, k, addr, end, prot, room);
    RewriteSame(es[..k], Leaves(es, addr, end, prot, room), g);
    RewriteIdentity(es[k..], g);
    RewriteConcat(es[..k], es[k..], g);
    assert es[..k] + es[k..] == es;
  }

  lemma {:induction false} PrefixSame(es: seq<Entry>, k: nat, addr: nat, end: nat, prot: Prot, room: int)
    requires WellFormed(es) && addr < end && k < |es| && NotInside(es, addr) && LeftPartial(es[k], addr, end)
    ensures forall e :: e in es[..k] ==> Leaves(es, addr, end, prot, room)(e) == Recolor(e, addr, es[k].start, prot)
    ensures forall e :: e in es[k..] ==> Recolor(e, addr, es[k].start, prot) == [e]
  {
    var stop := es[k].start;
    hide Grows;
    forall e | e in es[..k]
      ensures Leaves(es, addr, end, prot, room)(e) == Recolor(e, addr, stop, prot)
    {
      var j :| 0 <= j < k && es[j] == e;
      assert es[j].end <= stop && !StrictlyInside(es[j], addr);
    }
    forall e | e in es[k..]
      ensures Recolor(e, addr, stop, prot) == [e]
    {
      var j :| k <= j < |es| && es[j] == e;
      assert es[j].start >= stop;
    }
  }

  lemma {:induction false} NothingToDo(es: seq<Entry>, addr: nat, prot: Prot)
    requires WellFormed(es) && NotInside(es, addr)
    ensures ProtectRight(es, Rewrite(es, e => Recolor(e, addr, addr, prot)), addr, addr, prot)
  {
    var g := e => Recolor(e, addr, addr, prot);
    forall e | e in es
      ensures g(e) == [e]
    {
      var j :| 0 <= j < |es| && es[j] == e;
      assert !StrictlyInside(es[j], addr);
    }
    RewriteIdentity(es, g);
  }
}
