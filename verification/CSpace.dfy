/**
 A task's capability space: a slot table and a bitmap of taken slots, both doubled when full.
 Slot 0 is reserved.
 */
module CSpace {

  const WORD_BITS := 32
  const DEFAULT_SLOTS := 256
  const MAX_SLOTS := 65536
  const U31 := 0x8000_0000
  const U32 := 0x1_0000_0000

  /** A 32-bit word as its bits, least significant first. */
  type Word = w: seq<bool> | |w| == WORD_BITS witness seq(WORD_BITS, _ => false)

  const CLEAR: Word := seq(WORD_BITS, _ => false)
  const FULL: Word := seq(WORD_BITS, _ => true)

  datatype Slot = Slot(id: nat, kind: nat, rights: nat, inUse: bool)

  const VACANT := Slot(0, 0, 0, false)

  predicate Bit(bitmap: seq<Word>, i: nat)
    requires i / WORD_BITS < |bitmap|
  {
    bitmap[i / WORD_BITS][i % WORD_BITS]
  }

  /** A marked slot other than slot 0 is in use.  A slot in use need not be marked. */
  ghost predicate Sound(slots: seq<Slot>, bitmap: seq<Word>) {
    && |slots| == WORD_BITS * |bitmap|
    && (forall i: nat :: i < |slots| && Bit(bitmap, i) ==> i == 0 || slots[i].inUse)
    && (|slots| > 0 ==> Bit(bitmap, 0) && !slots[0].inUse)
  }

  /** A slot in use that no bit marks: nobody granted what it says. */
  ghost predicate Stray(slots: seq<Slot>, bitmap: seq<Word>, i: nat) {
    i < |slots| && slots[i].inUse && !(i / WORD_BITS < |bitmap| && Bit(bitmap, i))
  }

  /** The bitmap marks exactly slot 0 and the slots in use. */
  ghost predicate Marked(slots: seq<Slot>, bitmap: seq<Word>) {
    Sound(slots, bitmap) && forall i: nat :: !Stray(slots, bitmap, i)
  }

  /** The slots whose bit is `mark`, the others blanked. */
  ghost function Masked(slots: seq<Slot>, bitmap: seq<Word>, mark: bool): seq<Slot>
    requires |slots| <= WORD_BITS * |bitmap|
  {
    seq(|slots|, i requires 0 <= i < |slots| => if Bit(bitmap, i) == mark then slots[i] else VACANT)
  }

  /** The records granted: those in marked slots. */
  ghost function GrantedIn(slots: seq<Slot>, bitmap: seq<Word>): multiset<Slot>
    requires |slots| <= WORD_BITS * |bitmap|
  {
    Caps(Masked(slots, bitmap, true))
  }

  lemma {:induction false} CapsSum(a: seq<Slot>, b: seq<Slot>, c: seq<Slot>)
    requires |a| == |b| == |c| && forall i :: 0 <= i < |a| ==> One(a[i]) == One(b[i]) + One(c[i])
    ensures Caps(a) == Caps(b) + Caps(c)
  {
    if a != [] {
      var n := |a| - 1;
      CapsSum(a[..n], b[..n], c[..n]);
      assert One(a[n]) == One(b[n]) + One(c[n]);
    }
  }

  /** The records in the table are the ones granted if and only if the bitmap is exact. */
  lemma {:induction false} MarkedIff(slots: seq<Slot>, bitmap: seq<Word>)
    requires Sound(slots, bitmap)
    ensures Marked(slots, bitmap) <==> Caps(slots) == GrantedIn(slots, bitmap)
  {
    hide Bit, Caps;
    var rest := Masked(slots, bitmap, false);
    CapsSum(slots, Masked(slots, bitmap, true), rest);
    if i: nat :| Stray(slots, bitmap, i) {
      assert rest[i] == slots[i];
      HoldsRecord(rest, i);
    } else {
      NoStrays(slots, bitmap);
    }
  }

  lemma {:induction false} NoStrays(slots: seq<Slot>, bitmap: seq<Word>)
    requires |slots| == WORD_BITS * |bitmap| && forall i: nat :: !Stray(slots, bitmap, i)
    ensures Caps(Masked(slots, bitmap, false)) == multiset{}
  {
    hide Bit, Caps;
    var rest := Masked(slots, bitmap, false);
    forall i | 0 <= i < |rest|
      ensures !rest[i].inUse
    {
      assert !Stray(slots, bitmap, i);
    }
    NoRecords(rest);
  }

  lemma {:induction false} NoRecords(slots: seq<Slot>)
    requires forall i :: 0 <= i < |slots| ==> !slots[i].inUse
    ensures Caps(slots) == multiset{}
  {
    if slots != [] {
      NoRecords(slots[..|slots| - 1]);
    }
  }

  /** The capability records held, whatever their slots. */
  ghost function Caps(slots: seq<Slot>): multiset<Slot> {
    if slots == [] then multiset{} else Caps(slots[..|slots| - 1]) + One(slots[|slots| - 1])
  }

  ghost function One(s: Slot): multiset<Slot> {
    if s.inUse then multiset{s} else multiset{}
  }

  lemma {:induction false} CapsConcat(s: seq<Slot>, t: seq<Slot>)
    ensures Caps(s + t) == Caps(s) + Caps(t)
  {
    if t == [] {
      assert s + t == s;
    } else {
      assert (s + t)[..|s + t| - 1] == s + t[..|t| - 1];
      CapsConcat(s, t[..|t| - 1]);
    }
  }

  lemma {:induction false} CapsAt(slots: seq<Slot>, i: nat)
    requires i < |slots|
    ensures Caps(slots) == Caps(slots[..i]) + One(slots[i]) + Caps(slots[i + 1..])
  {
    var front := slots[..i + 1];
    assert slots == front + slots[i + 1..] && front[..i] == slots[..i];
    CapsConcat(front, slots[i + 1..]);
  }

  /** Writing one slot exchanges one record. */
  lemma {:induction false} CapsUpdate(slots: seq<Slot>, i: nat, s: Slot)
    requires i < |slots|
    ensures Caps(slots[i := s]) + One(slots[i]) == Caps(slots) + One(s)
  {
    var t := slots[i := s];
    CapsAt(slots, i);
    CapsAt(t, i);
    assert t[..i] == slots[..i] && t[i + 1..] == slots[i + 1..];
  }

  lemma {:induction false} CapsCleared(slots: seq<Slot>, i: nat)
    requires i < |slots|
    ensures Caps(slots[i := VACANT]) == Caps(slots) - One(slots[i])
  {
    hide Caps;
    CapsUpdate(slots, i, VACANT);
    assert Caps(slots[i := VACANT]) + One(slots[i]) - One(slots[i]) == Caps(slots[i := VACANT]);
  }

  lemma {:induction false} HoldsRecord(slots: seq<Slot>, i: nat)
    requires i < |slots| && slots[i].inUse
    ensures slots[i] in Caps(slots)
  {
    CapsAt(slots, i);
  }

  /* ---------------- handles ---------------- */

  function MakeHandle(task: nat, slot: nat): nat {
    task * U32 + slot % U31
  }

  function HandleTask(handle: nat): nat {
    handle / U32
  }

  function HandleSlot(handle: nat): nat {
    handle % U31
  }

  /** A handle gives back its task, and its slot when that fits 31 bits. */
  lemma {:induction false} HandleRoundTrip(task: nat, slot: nat)
    ensures HandleTask(MakeHandle(task, slot)) == task
    ensures HandleSlot(MakeHandle(task, slot)) == slot <==> slot < U31
  {
    var r := slot % U31;
    DivU32(task, r);
    ModU31(2 * task, r);
    assert MakeHandle(task, slot) == U31 * (2 * task) + r;
  }

  lemma {:induction false} DivU32(q: nat, r: nat)
    requires r < U31
    ensures (q * U32 + r) / U32 == q
  {
  }

  lemma {:induction false} ModU31(q: nat, r: nat)
    requires r < U31
    ensures (U31 * q + r) % U31 == r
  {
  }

  /* ---------------- growth ---------------- */

  datatype Option<+T> = None | Some(value: T)

  /**
   What kmalloc gives for a table twice as long: the contents of its second half, which nothing
   clears, by the length of the first; or no memory.
   */
  type Memory = nat -> Option<seq<Slot>>

  ghost predicate Sized(memory: Memory) {
    forall n: nat :: memory(n).Some? ==> |memory(n).value| == n
  }

  /** All the memory to be had is free of anything that looks in use. */
  ghost predicate Blank(memory: Memory) {
    forall n: nat, i: nat :: memory(n).Some? && i < |memory(n).value| ==> !memory(n).value[i].inUse
  }

  function ClearWords(n: nat): seq<Word> {
    seq(n, _ => CLEAR)
  }

  lemma {:induction false} BitOfGrown(bitmap: seq<Word>, i: nat)
    requires i < 2 * WORD_BITS * |bitmap|
    ensures Bit(bitmap + ClearWords(|bitmap|), i) <==> i < WORD_BITS * |bitmap| && Bit(bitmap, i)
  {
  }

  /** A table grown into memory `more` is exact if and only if nothing there looks in use. */
  lemma {:induction false} GrownMarkedIff(slots: seq<Slot>, bitmap: seq<Word>, more: seq<Slot>)
    requires Sound(slots, bitmap) && |more| == |slots| > 0
    ensures Sound(slots + more, bitmap + ClearWords(|bitmap|))
    ensures GrantedIn(slots + more, bitmap + ClearWords(|bitmap|)) == GrantedIn(slots, bitmap)
    ensures Marked(slots + more, bitmap + ClearWords(|bitmap|)) <==>
      Marked(slots, bitmap) && forall i :: 0 <= i < |more| ==> !more[i].inUse
  {
    hide Bit, Caps;
    var all, bits := slots + more, bitmap + ClearWords(|bitmap|);
    forall i: nat | i < |all|
      ensures Bit(bits, i) <==> i < |slots| && Bit(bitmap, i)
    {
      BitOfGrown(bitmap, i);
    }
    GrownGrants(slots, bitmap, more);
    forall i: nat
      ensures Stray(all, bits, i) <==> Stray(slots, bitmap, i) || (|slots| <= i < |all| && more[i - |slots|].inUse)
    {
    }
    if Marked(all, bits) {
      forall i | 0 <= i < |more|
        ensures !more[i].inUse
      {
        assert !Stray(all, bits, |slots| + i);
      }
    }
  }

  lemma {:induction false} GrownGrants(slots: seq<Slot>, bitmap: seq<Word>, more: seq<Slot>)
    requires |slots| == WORD_BITS * |bitmap| && |more| == |slots|
    ensures GrantedIn(slots + more, bitmap + ClearWords(|bitmap|)) == GrantedIn(slots, bitmap)
  {
    hide Bit, Caps;
    var n := |slots|;
    var all, bits := slots + more, bitmap + ClearWords(|bitmap|);
    forall i: nat | i < |all|
      ensures Bit(bits, i) <==> i < n && Bit(bitmap, i)
    {
      BitOfGrown(bitmap, i);
    }
    var blank := seq(n, _ => VACANT);
    assert Masked(all, bits, true) == Masked(slots, bitmap, true) + blank;
    CapsConcat(Masked(slots, bitmap, true), blank);
    NoRecords(blank);
  }

  /** A full table whose second half comes out of memory that held a port capability. */
  function FullTable(): seq<Slot> {
    seq(DEFAULT_SLOTS, i => if i == 0 then VACANT else Slot(7, 1, 3, true))
  }

  function FullBitmap(): seq<Word> {
    seq(DEFAULT_SLOTS / WORD_BITS, _ => FULL)
  }

  function UsedMemory(): seq<Slot> {
    seq(DEFAULT_SLOTS, _ => Slot(9, 1, 3, true))
  }

  lemma {:induction false} GrowthStrays()
    ensures Marked(FullTable(), FullBitmap())
    ensures !Marked(FullTable() + UsedMemory(), FullBitmap() + ClearWords(|FullBitmap()|))
    ensures Stray(FullTable() + UsedMemory(), FullBitmap() + ClearWords(|FullBitmap()|), 300)
  {
    assert forall i: nat :: i < DEFAULT_SLOTS ==> Bit(FullBitmap(), i);
    GrownMarkedIff(FullTable(), FullBitmap(), UsedMemory());
    assert UsedMemory()[44].inUse;
    BitOfGrown(FullBitmap(), 300);
  }

  class Space {
    var slots: seq<Slot>
    var bitmap: seq<Word>

    ghost predicate Valid()
      reads this
    {
      Sound(slots, bitmap) && 0 < |slots| <= MAX_SLOTS
    }

    /** The bitmap is exact. */
    ghost predicate Exact()
      reads this
    {
      Marked(slots, bitmap)
    }

    ghost function Granted(): multiset<Slot>
      requires Valid()
      reads this
    {
      GrantedIn(slots, bitmap)
    }

    /** cspace_init. */
    constructor ()
      ensures Valid() && Exact() && Granted() == multiset{} && |slots| == DEFAULT_SLOTS
    {
      slots := seq(DEFAULT_SLOTS, _ => VACANT);
      bitmap := ClearWords(DEFAULT_SLOTS / WORD_BITS)[0 := CLEAR[0 := true]];
      new;
      NoRecords(Masked(slots, bitmap, true));
    }

    /** bitmap_alloc: takes the lowest clear bit. */
    method BitmapAlloc() returns (slot: int)
      requires |slots| == WORD_BITS * |bitmap|
      modifies this`bitmap
      ensures |bitmap| == old(|bitmap|)
      ensures slot == -1 ==> bitmap == old(bitmap) && forall i: nat :: i < |slots| ==> Bit(bitmap, i)
      ensures slot != -1 ==>
        && 0 <= slot < |slots| && !Bit(old(bitmap), slot)
        && (forall i: nat :: i < slot ==> Bit(old(bitmap), i))
        && (forall i: nat :: i < |slots| ==> (Bit(bitmap, i) <==> i == slot || Bit(old(bitmap), i)))
    {
      for w := 0 to |bitmap|
        invariant bitmap == old(bitmap)
        invariant forall i: nat :: i < WORD_BITS * w ==> Bit(bitmap, i)
      {
        if bitmap[w] != FULL {
          var b := 0;
          while b < WORD_BITS
            invariant 0 <= b <= WORD_BITS && bitmap == old(bitmap)
            invariant forall k :: 0 <= k < b ==> bitmap[w][k]
          {
            if !bitmap[w][b] {
              WordIndex(w, b);
              bitmap := bitmap[w := bitmap[w][b := true]];
              return w * WORD_BITS + b;
            }
            b := b + 1;
          }
        }
      }
      return -1;
    }

    /** bitmap_free. */
    method BitmapFree(slot: nat)
      requires slot / WORD_BITS < |bitmap|
      modifies this`bitmap
      ensures |bitmap| == old(|bitmap|)
      ensures forall i: nat :: i / WORD_BITS < |bitmap| ==> (Bit(bitmap, i) <==> i != slot && Bit(old(bitmap), i))
    {
      var w, b := slot / WORD_BITS, slot % WORD_BITS;
      bitmap := bitmap[w := bitmap[w][b := false]];
    }

    /** cspace_grow: doubles both tables.  Only the new half of the bitmap is cleared. */
    method Grow(memory: Memory) returns (ok: bool)
      requires Valid() && Sized(memory)
      modifies this
      ensures Valid() && Granted() == old(Granted())
      ensures ok <==> 2 * old(|slots|) <= MAX_SLOTS && memory(old(|slots|)).Some?
      ensures ok ==> slots == old(slots) + memory(old(|slots|)).value
      ensures ok ==> bitmap == old(bitmap) + ClearWords(old(|bitmap|))
      ensures ok ==> (Exact() <==> old(Exact()) && NoneInUse(memory(old(|slots|)).value))
      ensures !ok ==> slots == old(slots) && bitmap == old(bitmap)
    {
      hide Bit, Caps, Sound, Marked, GrantedIn;
      var newMax := |slots| * 2;
      if newMax > MAX_SLOTS || memory(|slots|).None? {
        return false;
      }
      SoundSize(slots, bitmap);
      GrownMarkedIff(slots, bitmap, memory(|slots|).value);
      slots := slots + memory(|slots|).value;
      bitmap := bitmap + ClearWords(|bitmap|);
      return true;
    }

    /** The lowest unmarked slot, in a longer table when every slot is marked; `bits` is the bitmap before. */
    method TakeSlot(memory: Memory) returns (slot: int, ghost bits: seq<Word>)
      requires Valid() && Sized(memory)
      modifies this
      ensures slot == -1 <==> Starved(old(bitmap), memory)
      ensures slot == -1 ==> slots == old(slots) && bitmap == old(bitmap) && Valid()
      ensures slot != -1 ==> slots == GrownTable(old(slots), old(bitmap), memory) && |slots| <= MAX_SLOTS
      ensures slot != -1 ==> bits == old(bitmap) || bits == old(bitmap) + ClearWords(old(|bitmap|))
      ensures slot != -1 ==> Sound(slots, bits) && GrantedIn(slots, bits) == old(Granted()) && |bits| == |bitmap|
      ensures slot != -1 ==> 0 < slot < |slots| && Newly(bits, slot, bitmap)
    {
      hide Caps, GrantedIn, Sound, Bit, Marked;
      SoundSize(slots, bitmap);
      bits := bitmap;
      slot := BitmapAlloc();
      if slot == -1 {
        var ok := Grow(memory);
        if !ok {
          return;
        }
        bits := bitmap;
        BitOfGrown(old(bitmap), old(|slots|));
        SoundSize(slots, bits);
        slot := BitmapAlloc();
      }
      ZeroMarked(slots, bits);
    }

    /**
     The common part of cspace_alloc_slot and cspace_move: the slot taken gets the record `s`.
     One record more is granted.
     */
    method Put(s: Slot, memory: Memory) returns (slot: int)
      requires Valid() && Sized(memory) && s.inUse
      modifies this
      ensures Valid()
      ensures slot == -1 <==> Starved(old(bitmap), memory)
      ensures slot == -1 ==> slots == old(slots) && bitmap == old(bitmap)
      ensures slot != -1 ==> Added(old(slots), old(bitmap), memory, slot, s, slots, bitmap)
      ensures slot != -1 ==> Granted() == old(Granted()) + multiset{s}
      ensures slot != -1 ==> (Exact() <==> OnlyStray(GrownTable(old(slots), old(bitmap), memory), old(bitmap), slot))
    {
      hide Caps, GrantedIn, Sound, Bit, Marked, Newly, GrownTable;
      ghost var bits;
      slot, bits := TakeSlot(memory);
      if slot != -1 {
        Filled(slots, bits, bitmap, slot, s);
        Adding(old(bitmap), bits, bitmap, slots, slot);
        slots := slots[slot := s];
      }
    }

    /** The record granted, and what that leaves alone. */
    method Grant(s: Slot, memory: Memory) returns (slot: int)
      requires Valid() && Sized(memory) && s.inUse
      modifies this
      ensures Valid() && KeptGranted(old(slots), old(bitmap), slots, bitmap)
      ensures slot == -1 <==> Starved(old(bitmap), memory)
      ensures slot == -1 ==> slots == old(slots) && bitmap == old(bitmap)
      ensures slot != -1 ==> 0 < slot < |slots| && slots[slot] == s && Granted() == old(Granted()) + multiset{s}
      ensures slot != -1 ==> (Exact() <==> OnlyStray(GrownTable(old(slots), old(bitmap), memory), old(bitmap), slot))
      ensures old(Exact()) && Blank(memory) ==> Exact()
    {
      hide Bit, Caps, GrantedIn, Sound, Marked;
      SoundSize(slots, bitmap);
      ghost var was, bits := slots, bitmap;
      slot := Put(s, memory);
      if slot != -1 {
        AddedKeeps(was, bits, memory, slot, s, slots, bitmap);
        if Blank(memory) && Marked(was, bits) {
          BlankTable(was, bits, memory, slot);
        }
      }
    }

    /** cspace_alloc_slot. */
    method AllocSlot(kind: nat, rights: nat, id: nat, memory: Memory) returns (slot: int)
      requires Valid() && Sized(memory)
      modifies this
      ensures Valid() && KeptGranted(old(slots), old(bitmap), slots, bitmap)
      ensures slot == -1 <==> Starved(old(bitmap), memory)
      ensures slot == -1 ==> slots == old(slots) && bitmap == old(bitmap)
      ensures slot != -1 ==>
        && 0 < slot < |slots| && slots[slot] == Slot(id, kind, rights, true)
        && Granted() == old(Granted()) + multiset{Slot(id, kind, rights, true)}
      ensures slot != -1 ==> (Exact() <==> OnlyStray(GrownTable(old(slots), old(bitmap), memory), old(bitmap), slot))
      ensures old(Exact()) && Blank(memory) ==> Exact()
    {
      slot := Grant(Slot(id, kind, rights, true), memory);
    }

    /** Empties a slot and clears its bit.  A record is withdrawn if the slot was marked. */
    method Clear(slot: nat)
      requires Valid() && slot < |slots| && slots[slot].inUse
      modifies this
      ensures Valid() && Withdrawn(old(slots), old(bitmap), slot, slots, bitmap)
      ensures Granted() == old(Granted()) - (if Bit(old(bitmap), slot) then multiset{old(slots)[slot]} else multiset{})
      ensures Exact() <==> OnlyStray(old(slots), old(bitmap), slot)
    {
      hide Caps, GrantedIn;
      Emptying(slots, bitmap, slot);
      ghost var was := bitmap;
      BitmapFree(slot);
      slots := slots[slot := VACANT];
      Cleared(old(slots), was, bitmap, slot);
    }

    /** cspace_free_slot: decided by the slot alone, not by its bit. */
    method FreeSlot(slot: int) returns (ok: bool)
      requires Valid()
      modifies this
      ensures Valid()
      ensures ok <==> 0 <= slot < old(|slots|) && old(slots)[slot].inUse
      ensures !ok ==> slots == old(slots) && bitmap == old(bitmap)
      ensures ok ==> Withdrawn(old(slots), old(bitmap), slot, slots, bitmap)
      ensures ok ==>
        Granted() == old(Granted()) - (if Bit(old(bitmap), slot) then multiset{old(slots)[slot]} else multiset{})
      ensures ok ==> (Exact() <==> OnlyStray(old(slots), old(bitmap), slot))
    {
      if slot < 0 || slot >= |slots| || !slots[slot].inUse {
        return false;
      }
      Clear(slot);
      return true;
    }
  }

  /** `slot` was not marked and now is; nothing else changed. */
  ghost predicate Newly(bits: seq<Word>, slot: int, bitmap: seq<Word>) {
    && |bits| == |bitmap| && 0 <= slot < WORD_BITS * |bits| && !Bit(bits, slot)
    && forall i: nat :: i < WORD_BITS * |bits| ==> (Bit(bitmap, i) <==> i == slot || Bit(bits, i))
  }

  lemma {:induction false} ZeroMarked(slots: seq<Slot>, bitmap: seq<Word>)
    requires Sound(slots, bitmap) && |slots| > 0
    ensures |bitmap| > 0 && Bit(bitmap, 0)
  {
  }

  lemma {:induction false} Adding(was: seq<Word>, bits: seq<Word>, bitmap: seq<Word>, slots: seq<Slot>, slot: nat)
    requires bits == was || bits == was + ClearWords(|was|)
    requires |slots| == WORD_BITS * |bits| && Newly(bits, slot, bitmap)
    ensures slot / WORD_BITS < |was| ==> !Bit(was, slot)
    ensures forall i: nat :: i < |slots| ==> (Bit(bitmap, i) <==> i == slot || (i / WORD_BITS < |was| && Bit(was, i)))
    ensures OnlyStray(slots, bits, slot) <==> OnlyStray(slots, was, slot)
  {
    hide Bit;
    if bits != was {
      forall i: nat | i < |slots|
        ensures Bit(bits, i) <==> i / WORD_BITS < |was| && Bit(was, i)
      {
        BitOfGrown(was, i);
      }
      StraysGrown(slots, was, slot);
    }
  }

  ghost predicate NoneInUse(slots: seq<Slot>) {
    forall i :: 0 <= i < |slots| ==> !slots[i].inUse
  }

  ghost predicate AllMarked(bitmap: seq<Word>) {
    forall i: nat :: i < WORD_BITS * |bitmap| ==> Bit(bitmap, i)
  }

  /** Every slot is marked and the table cannot grow. */
  ghost predicate Starved(bitmap: seq<Word>, memory: Memory) {
    var n := WORD_BITS * |bitmap|;
    AllMarked(bitmap) && (2 * n > MAX_SLOTS || memory(n).None?)
  }

  /** The table a new record goes into. */
  ghost function GrownTable(slots: seq<Slot>, bitmap: seq<Word>, memory: Memory): seq<Slot> {
    if AllMarked(bitmap) && memory(|slots|).Some? then slots + memory(|slots|).value else slots
  }

  ghost predicate OnlyStray(slots: seq<Slot>, bitmap: seq<Word>, slot: int) {
    forall i: nat :: Stray(slots, bitmap, i) ==> i == slot
  }

  /** Record `s` has gone into an unmarked slot, and that slot is now marked. */
  ghost predicate Added(slots: seq<Slot>, bitmap: seq<Word>, memory: Memory, slot: int, s: Slot, slots': seq<Slot>,
                        bitmap': seq<Word>)
  {
    var table := GrownTable(slots, bitmap, memory);
    && 0 < slot < |table| && slots' == table[slot := s] && |slots'| == WORD_BITS * |bitmap'|
    && (slot / WORD_BITS < |bitmap| ==> !Bit(bitmap, slot))
    && forall i: nat :: i < |slots'| ==>
      (Bit(bitmap', i) <==> i == slot || (i / WORD_BITS < |bitmap| && Bit(bitmap, i)))
  }

  lemma {:induction false} SoundSize(slots: seq<Slot>, bitmap: seq<Word>)
    requires Sound(slots, bitmap)
    ensures |slots| == WORD_BITS * |bitmap|
  {
  }

  /** Marking or clearing one slot does away with a stray there and with no other. */
  lemma {:induction false} StraysBut(slots: seq<Slot>, bitmap: seq<Word>, slots': seq<Slot>, bits: seq<Word>, slot: nat,
                                     s: Slot)
    requires |slots| == WORD_BITS * |bitmap| && |bits| == |bitmap| && slot < |slots| && slots' == slots[slot := s]
    requires forall i: nat :: i < |slots| && i != slot ==> (Bit(bits, i) <==> Bit(bitmap, i))
    requires Bit(bits, slot) <==> s.inUse
    ensures (forall i: nat :: !Stray(slots', bits, i)) <==> OnlyStray(slots, bitmap, slot)
  {
    hide Bit;
    forall i: nat
      ensures Stray(slots', bits, i) <==> Stray(slots, bitmap, i) && i != slot
    {
    }
  }

  lemma {:induction false} StraysGrown(slots: seq<Slot>, bitmap: seq<Word>, slot: int)
    requires |slots| == 2 * WORD_BITS * |bitmap|
    ensures OnlyStray(slots, bitmap + ClearWords(|bitmap|), slot) <==> OnlyStray(slots, bitmap, slot)
  {
    hide Bit;
    var bits := bitmap + ClearWords(|bitmap|);
    forall i: nat
      ensures Stray(slots, bits, i) <==> Stray(slots, bitmap, i)
    {
      if i < |slots| {
        BitOfGrown(bitmap, i);
      }
    }
  }

  lemma {:induction false} Filled(slots: seq<Slot>, bitmap: seq<Word>, bits: seq<Word>, slot: nat, s: Slot)
    requires Sound(slots, bitmap) && Newly(bitmap, slot, bits) && s.inUse
    ensures slot < |slots| == WORD_BITS * |bits| && Sound(slots[slot := s], bits)
    ensures GrantedIn(slots[slot := s], bits) == GrantedIn(slots, bitmap) + multiset{s}
    ensures Marked(slots[slot := s], bits) <==> OnlyStray(slots, bitmap, slot)
  {
    hide Bit, Caps;
    var was := Masked(slots, bitmap, true);
    CapsUpdate(was, slot, s);
    assert Masked(slots[slot := s], bits, true) == was[slot := s];
    StraysBut(slots, bitmap, slots[slot := s], bits, slot, s);
  }

  lemma {:induction false} Emptying(slots: seq<Slot>, bitmap: seq<Word>, slot: nat)
    requires Sound(slots, bitmap) && slot < |slots| && slots[slot].inUse
    ensures slot > 0 && slot / WORD_BITS < |bitmap|
  {
  }

  lemma {:induction false} Cleared(slots: seq<Slot>, bitmap: seq<Word>, bits: seq<Word>, slot: nat)
    requires Sound(slots, bitmap) && |bits| == |bitmap| && 0 < slot < |slots|
    requires forall i: nat :: i < |slots| ==> (Bit(bits, i) <==> i != slot && Bit(bitmap, i))
    ensures Sound(slots[slot := VACANT], bits)
    ensures GrantedIn(slots[slot := VACANT], bits) ==
      GrantedIn(slots, bitmap) - (if Bit(bitmap, slot) then multiset{slots[slot]} else multiset{})
    ensures Marked(slots[slot := VACANT], bits) <==> OnlyStray(slots, bitmap, slot)
  {
    hide Bit, Caps;
    var was := Masked(slots, bitmap, true);
    CapsCleared(was, slot);
    assert Masked(slots[slot := VACANT], bits, true) == was[slot := VACANT];
    StraysBut(slots, bitmap, slots[slot := VACANT], bits, slot, VACANT);
  }

  /** Slot `slot` is empty and unmarked; nothing else changed. */
  ghost predicate Withdrawn(slots: seq<Slot>, bitmap: seq<Word>, slot: int, slots': seq<Slot>, bitmap': seq<Word>) {
    && 0 < slot < |slots| == WORD_BITS * |bitmap| && slots' == slots[slot := VACANT] && |bitmap'| == |bitmap|
    && forall i: nat :: i < |slots| ==> (Bit(bitmap', i) <==> i != slot && Bit(bitmap, i))
  }

  /** Every record granted stays where it was and stays granted. */
  ghost predicate KeptGranted(slots: seq<Slot>, bitmap: seq<Word>, slots': seq<Slot>, bitmap': seq<Word>) {
    && |slots| == WORD_BITS * |bitmap| <= |slots'| == WORD_BITS * |bitmap'|
    && forall i: nat :: i < |slots| && Bit(bitmap, i) ==> slots'[i] == slots[i] && Bit(bitmap', i)
  }

  lemma {:induction false} AddedKeeps(slots: seq<Slot>, bitmap: seq<Word>, memory: Memory, slot: int, s: Slot,
                                      slots': seq<Slot>, bitmap': seq<Word>)
    requires Added(slots, bitmap, memory, slot, s, slots', bitmap') && |slots| == WORD_BITS * |bitmap|
    ensures KeptGranted(slots, bitmap, slots', bitmap')
  {
    hide Bit;
  }

  lemma {:induction false} BlankTable(slots: seq<Slot>, bitmap: seq<Word>, memory: Memory, slot: int)
    requires Marked(slots, bitmap) && Blank(memory)
    ensures OnlyStray(GrownTable(slots, bitmap, memory), bitmap, slot)
  {
    hide Bit;
    forall i: nat
      ensures !Stray(GrownTable(slots, bitmap, memory), bitmap, i)
    {
      assert !Stray(slots, bitmap, i);
    }
  }

  lemma {:induction false} NoneAtAll(slots: seq<Slot>, bitmap: seq<Word>, slot: int)
    requires Marked(slots, bitmap)
    ensures OnlyStray(slots, bitmap, slot)
  {
  }

  lemma {:induction false} MarkedGranted(slots: seq<Slot>, bitmap: seq<Word>, slot: nat)
    requires Sound(slots, bitmap) && slot < |slots| && Bit(bitmap, slot) && slots[slot].inUse
    ensures slots[slot] in GrantedIn(slots, bitmap)
  {
    hide Caps;
    HoldsRecord(Masked(slots, bitmap, true), slot);
  }

  lemma {:induction false} MovedSum(a: multiset<Slot>, b: multiset<Slot>, s: Slot)
    requires s in a
    ensures (a - multiset{s}) + (b + multiset{s}) == a + b
  {
  }

  /**
   cspace_move between two tasks.  What the two were granted together stays the same if and only
   if the slot was marked; a stray record becomes one granted to the receiver.
   */
  method Move(from: Space, to: Space, slot: int, memory: Memory) returns (r: int)
    requires from.Valid() && to.Valid() && from != to && Sized(memory)
    modifies from, to
    ensures from.Valid() && to.Valid()
    ensures r == -1 <==>
      !(0 <= slot < |old(from.slots)| && old(from.slots)[slot].inUse) || Starved(old(to.bitmap), memory)
    ensures r == -1 ==> from.slots == old(from.slots) && from.bitmap == old(from.bitmap)
    ensures r == -1 ==> to.slots == old(to.slots) && to.bitmap == old(to.bitmap)
    ensures r != -1 ==>
      && 0 <= slot < old(|from.slots|) && Withdrawn(old(from.slots), old(from.bitmap), slot, from.slots, from.bitmap)
      && 0 < r < |to.slots| && to.slots[r] == old(from.slots)[slot]
      && to.Granted() == old(to.Granted()) + multiset{old(from.slots)[slot]}
      && from.Granted() + to.Granted() ==
         old(from.Granted() + to.Granted()) + Forged(old(from.slots), old(from.bitmap), slot)
    ensures KeptGranted(old(to.slots), old(to.bitmap), to.slots, to.bitmap)
    ensures old(to.Exact()) && Blank(memory) ==> to.Exact()
    ensures old(from.Exact()) ==> from.Exact()
  {
    hide Caps, Sound, Marked, GrantedIn, Bit;
    SoundSize(from.slots, from.bitmap);
    SoundSize(to.slots, to.bitmap);
    if slot < 0 || slot >= |from.slots| || !from.slots[slot].inUse {
      return -1;
    }
    var s := from.slots[slot];
    r := to.Grant(s, memory);
    if r == -1 {
      return;
    }
    if from.Exact() {
      NoneAtAll(from.slots, from.bitmap, slot);
    }
    if Bit(from.bitmap, slot) {
      MarkedGranted(from.slots, from.bitmap, slot);
      MovedSum(from.Granted(), old(to.Granted()), s);
    }
    from.Clear(slot);
  }

  /** The record that a move out of an unmarked slot makes out of nothing. */
  ghost function Forged(slots: seq<Slot>, bitmap: seq<Word>, slot: nat): multiset<Slot>
    requires slot < |slots| <= WORD_BITS * |bitmap|
  {
    if Bit(bitmap, slot) then multiset{} else multiset{slots[slot]}
  }

  lemma {:induction false} WordIndex(w: nat, b: nat)
    requires b < WORD_BITS
    ensures (w * WORD_BITS + b) / WORD_BITS == w && (w * WORD_BITS + b) % WORD_BITS == b
  {
  }
}
