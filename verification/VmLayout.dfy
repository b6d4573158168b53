/**
 A task's address space as a sorted list of entries, and what it means: a partial map from
 addresses to (object, offset within the object, protection, inheritance).
 */
module VmLayout {

  const U64 := 0x1_0000_0000_0000_0000

  type Word64 = x: int | 0 <= x < U64

  datatype Prot = Prot(read: bool, write: bool, exec: bool)

  datatype Entry = Entry(start: nat, end: nat, obj: nat, off: Word64, prot: Prot, inherit: nat)

  datatype Meaning = Unmapped | Mapped(obj: nat, off: nat, prot: Prot, inherit: nat)

  predicate Covers(e: Entry, a: nat) {
    e.start <= a < e.end
  }

  /** entry_overlaps. */
  predicate Overlaps(e: Entry, start: nat, end: nat) {
    e.start < end && e.end > start
  }

  function At(e: Entry, a: nat): Meaning
    requires Covers(e, a)
  {
    Mapped(e.obj, (e.off + (a - e.start)) % U64, e.prot, e.inherit)
  }

  /** Entries are non-empty, sorted and disjoint. */
  ghost predicate WellFormed(es: seq<Entry>) {
    && (forall i :: 0 <= i < |es| ==> es[i].start < es[i].end)
    && (forall i, j :: 0 <= i < j < |es| ==> es[i].end <= es[j].start)
  }

  /** The meaning of address `a`, by a scan of all entries. */
  ghost function Lookup(es: seq<Entry>, a: nat): Meaning {
    if i :| 0 <= i < |es| && Covers(es[i], a) then At(es[i], a) else Unmapped
  }

  lemma {:induction false} LookupAt(es: seq<Entry>, a: nat, i: int)
    requires WellFormed(es) && 0 <= i < |es| && Covers(es[i], a)
    ensures Lookup(es, a) == At(es[i], a)
  {
  }

  lemma {:induction false} LookupNone(es: seq<Entry>, a: nat)
    requires forall i :: 0 <= i < |es| ==> !Covers(es[i], a)
    ensures Lookup(es, a) == Unmapped
  {
  }

  lemma {:induction false} LookupSplit(es: seq<Entry>, fs: seq<Entry>, a: nat)
    requires WellFormed(es + fs)
    ensures WellFormed(es) && WellFormed(fs)
    ensures Lookup(es + fs, a) == if Lookup(es, a) != Unmapped then Lookup(es, a) else Lookup(fs, a)
  {
    hide Lookup;
    var all := es + fs;
    assert forall i :: 0 <= i < |es| ==> all[i] == es[i];
    assert forall i :: 0 <= i < |fs| ==> all[|es| + i] == fs[i];
    if i :| 0 <= i < |es| && Covers(es[i], a) {
      LookupAt(all, a, i);
      LookupAt(es, a, i);
    } else {
      LookupNone(es, a);
      if i :| 0 <= i < |fs| && Covers(fs[i], a) {
        LookupAt(all, a, |es| + i);
        LookupAt(fs, a, i);
      } else {
        LookupNone(fs, a);
        LookupNone(all, a);
      }
    }
  }

  /* ---------------- replacing each entry by fragments of itself ---------------- */

  /** `f` applied to every entry, in order. */
  ghost function Rewrite(es: seq<Entry>, f: Entry -> seq<Entry>): seq<Entry> {
    if es == [] then [] else Rewrite(es[..|es| - 1], f) + f(es[|es| - 1])
  }

  /** The fragments of an entry are well formed and stay inside it. */
  ghost predicate Fragments(e: Entry, fs: seq<Entry>) {
    WellFormed(fs) && forall i :: 0 <= i < |fs| ==> e.start <= fs[i].start && fs[i].end <= e.end
  }

  lemma {:induction false} RewriteShape(es: seq<Entry>, f: Entry -> seq<Entry>)
    requires WellFormed(es)
    requires forall e :: e in es ==> Fragments(e, f(e))
    ensures WellFormed(Rewrite(es, f))
    ensures es != [] ==> forall g :: g in Rewrite(es, f) ==> g.end <= es[|es| - 1].end
  {
    if es != [] {
      var n := |es| - 1;
      var init, last := es[..n], es[n];
      RewriteShape(init, f);
      var r, fs := Rewrite(init, f), f(last);
      assert Fragments(last, fs);
      forall i, j | 0 <= i < j < |r + fs|
        ensures (r + fs)[i].end <= (r + fs)[j].start
      {
        if i < |r| && j >= |r| {
          assert r[i] in r && n > 0;
          assert init[n - 1] == es[n - 1];
        }
      }
    }
  }

  /** An address keeps, under the rewriting, the meaning the fragments of its entry give it. */
  lemma {:induction false} RewriteMeaning(es: seq<Entry>, f: Entry -> seq<Entry>, a: nat)
    requires WellFormed(es)
    requires forall e :: e in es ==> Fragments(e, f(e))
    ensures forall i :: 0 <= i < |es| && Covers(es[i], a) ==> Lookup(Rewrite(es, f), a) == Lookup(f(es[i]), a)
    ensures Lookup(es, a) == Unmapped ==> Lookup(Rewrite(es, f), a) == Unmapped
  {
    if es != [] {
      var n := |es| - 1;
      var init, last := es[..n], es[n];
      assert es == init + [last];
      RewriteShape(es, f);
      RewriteMeaning(init, f, a);
      LookupSplit(init, [last], a);
      LookupSplit(Rewrite(init, f), f(last), a);
      assert Fragments(last, f(last));
      if Covers(last, a) {
        assert Lookup(init, a) == Unmapped;
      } else {
        assert Lookup(f(last), a) == Unmapped;
      }
    }
  }

  /* ---------------- unmap ---------------- */

  function Advanced(e: Entry, to: nat): Entry
    requires e.start <= to
  {
    e.(start := to, off := (e.off + (to - e.start)) % U64)
  }

  /** What vm_map_unmap leaves of one entry. */
  function Cut(e: Entry, addr: nat, end: nat): seq<Entry> {
    if !Overlaps(e, addr, end) then [e]
    else if addr <= e.start && end >= e.end then []
    else if addr <= e.start then [Advanced(e, end)]
    else if end >= e.end then [e.(end := addr)]
    else [e.(end := addr), Advanced(e, end)]
  }

  /** What an unmap should leave. */
  ghost function Unmap(es: seq<Entry>, addr: nat, end: nat): seq<Entry> {
    Rewrite(es, e => Cut(e, addr, end))
  }

  /** The entry reaches beyond the range on both sides. */
  predicate ThreeWay(e: Entry, addr: nat, end: nat) {
    e.start < addr && end < e.end
  }

  /**
   What the code leaves of one entry.  A split that has to grow the array shortens the left piece
   in the array just freed, so that the new one keeps the entry whole.
   */
  function CutIn(e: Entry, addr: nat, end: nat, full: bool): seq<Entry> {
    if ThreeWay(e, addr, end) && Overlaps(e, addr, end) && full then [e, Advanced(e, end)] else Cut(e, addr, end)
  }

  /** What vm_map_unmap leaves; `full` says that the array had no free place. */
  ghost function UnmapLeft(es: seq<Entry>, addr: nat, end: nat, full: bool): seq<Entry> {
    Rewrite(es, e => CutIn(e, addr, end, full))
  }

  lemma {:induction false} UnmapStep(es: seq<Entry>, k: nat, addr: nat, end: nat, full: bool)
    requires k < |es|
    ensures UnmapLeft(es[..k + 1], addr, end, full) ==
      UnmapLeft(es[..k], addr, end, full) + CutIn(es[k], addr, end, full)
  {
    assert es[..k + 1][..k] == es[..k];
  }

  /** No entry before one that starts below the range meets the range. */
  lemma {:induction false} UnmapBefore(es: seq<Entry>, k: nat, addr: nat, end: nat, full: bool)
    requires WellFormed(es) && k < |es| && es[k].start < addr
    ensures UnmapLeft(es[..k], addr, end, full) == es[..k]
    ensures forall j :: 0 <= j < k ==> !Overlaps(es[j], addr, end)
  {
    RewriteIdentity(es[..k], e => CutIn(e, addr, end, full));
  }

  lemma {:induction false} AdvancedAt(e: Entry, to: nat, a: nat)
    requires e.start <= to <= a < e.end
    ensures At(Advanced(e, to), a) == At(e, a)
  {
    var x, d, r := e.off, to - e.start, a - to;
    var q := (x + d) / U64;
    assert x + d + r == U64 * q + ((x + d) % U64 + r);
    ModShift((x + d) % U64 + r, q);
  }

  lemma {:induction false} ModShift(x: nat, q: nat)
    ensures (U64 * q + x) % U64 == x % U64
  {
    var k := x / U64;
    assert U64 * q + x == U64 * (q + k) + x % U64;
  }

  lemma {:induction false} CutMeaning(e: Entry, addr: nat, end: nat, a: nat)
    requires e.start < e.end && addr < end
    ensures Fragments(e, Cut(e, addr, end))
    ensures Covers(e, a) ==> Lookup(Cut(e, addr, end), a) == if addr <= a < end then Unmapped else At(e, a)
  {
    var fs := Cut(e, addr, end);
    if Covers(e, a) && !(addr <= a < end) {
      var i := if |fs| == 2 && a >= end then 1 else 0;
      LookupAt(fs, a, i);
      if Overlaps(e, addr, end) && end <= a {
        AdvancedAt(e, end, a);
      }
    }
  }

  /** vm_map_unmap removes exactly [addr, end); every other address keeps its meaning. */
  lemma {:induction false} UnmapMeaning(es: seq<Entry>, addr: nat, end: nat, a: nat)
    requires WellFormed(es) && addr < end
    ensures WellFormed(Unmap(es, addr, end))
    ensures Lookup(Unmap(es, addr, end), a) == if addr <= a < end then Unmapped else Lookup(es, a)
  {
    var f := e => Cut(e, addr, end);
    forall e | e in es
      ensures Fragments(e, f(e))
    {
      CutMeaning(e, addr, end, a);
    }
    RewriteShape(es, f);
    RewriteMeaning(es, f, a);
    if i :| 0 <= i < |es| && Covers(es[i], a) {
      LookupAt(es, a, i);
      CutMeaning(es[i], addr, end, a);
    }
  }

  /** Exactly the addresses of [addr, end) have lost their meaning. */
  ghost predicate UnmapRight(es: seq<Entry>, fs: seq<Entry>, addr: nat, end: nat) {
    && WellFormed(fs)
    && forall a: nat :: Lookup(fs, a) == if addr <= a < end then Unmapped else Lookup(es, a)
  }

  /** The range lies strictly inside an entry. */
  ghost predicate AnySplit(es: seq<Entry>, addr: nat, end: nat) {
    exists i :: 0 <= i < |es| && ThreeWay(es[i], addr, end)
  }

  /** The range lies inside an entry and the array has no place for the right piece. */
  ghost predicate SplitGrows(es: seq<Entry>, addr: nat, end: nat, full: bool) {
    full && AnySplit(es, addr, end)
  }

  /** Two pieces that overlap leave the entries out of order. */
  lemma {:induction false} OverlapWrong(front: seq<Entry>, fs: seq<Entry>, back: seq<Entry>)
    requires |fs| >= 2 && fs[0].end > fs[1].start
    ensures !WellFormed(front + fs + back)
  {
    var all := front + fs + back;
    assert all[|front|] == fs[0] && all[|front| + 1] == fs[1];
  }

  /** vm_map_unmap removes exactly the range if and only if no split of it had to grow the array. */
  lemma {:induction false} UnmapRightIff(es: seq<Entry>, addr: nat, end: nat, full: bool)
    requires WellFormed(es) && addr < end
    ensures UnmapRight(es, UnmapLeft(es, addr, end, full), addr, end) <==> !SplitGrows(es, addr, end, full)
  {
    var f, g := e => CutIn(e, addr, end, full), e => Cut(e, addr, end);
    if SplitGrows(es, addr, end, full) {
      var i :| 0 <= i < |es| && ThreeWay(es[i], addr, end);
      RewriteAround(es, i, f);
      OverlapWrong(Rewrite(es[..i], f), f(es[i]), Rewrite(es[i + 1..], f));
    } else {
      RewriteSame(es, f, g);
      forall a: nat
        ensures Lookup(Unmap(es, addr, end), a) == if addr <= a < end then Unmapped else Lookup(es, a)
      {
        UnmapMeaning(es, addr, end, a);
      }
      UnmapMeaning(es, addr, end, 0);
    }
  }

  /* ---------------- map ---------------- */

  ghost function Insert(es: seq<Entry>, i: nat, e: Entry): seq<Entry>
    requires i <= |es|
  {
    es[..i] + [e] + es[i..]
  }

  /** The insertion point: every entry before starts at or below, every one after starts above. */
  ghost predicate InsertionPoint(es: seq<Entry>, i: nat, addr: nat) {
    && i <= |es|
    && (forall k :: 0 <= k < i ==> es[k].start <= addr)
    && (i < |es| ==> es[i].start > addr)
  }

  /** vm_map_map adds exactly the new range. */
  lemma {:induction false} InsertMeaning(es: seq<Entry>, i: nat, e: Entry, a: nat)
    requires WellFormed(es) && e.start < e.end && InsertionPoint(es, i, e.start)
    requires forall k :: 0 <= k < |es| ==> !Overlaps(es[k], e.start, e.end)
    ensures WellFormed(Insert(es, i, e))
    ensures Lookup(Insert(es, i, e), a) == if Covers(e, a) then At(e, a) else Lookup(es, a)
  {
    InsertShape(es, i, e);
    hide Lookup, WellFormed;
    var l, r := es[..i], es[i..];
    assert es == l + r && Insert(es, i, e) == l + ([e] + r);
    LookupSplit(l, [e] + r, a);
    LookupSplit([e], r, a);
    LookupSplit(l, r, a);
    if Covers(e, a) {
      LookupAt([e], a, 0);
      LookupNone(l, a);
    } else {
      LookupNone([e], a);
    }
  }

  lemma {:induction false} InsertShape(es: seq<Entry>, i: nat, e: Entry)
    requires WellFormed(es) && e.start < e.end && InsertionPoint(es, i, e.start)
    requires forall k :: 0 <= k < |es| ==> !Overlaps(es[k], e.start, e.end)
    ensures WellFormed(Insert(es, i, e))
    ensures forall k :: 0 <= k < i ==> es[k].end <= e.start
  {
    var fs := Insert(es, i, e);
    assert forall k :: 0 <= k < i ==> fs[k] == es[k];
    assert forall k :: i < k < |fs| ==> fs[k] == es[k - 1];
  }

  /* ---------------- protect ---------------- */

  /** One entry with the part inside [addr, end) given protection `prot`: what is wanted. */
  function Recolor(e: Entry, addr: nat, end: nat, prot: Prot): seq<Entry> {
    if !Overlaps(e, addr, end) then [e]
    else if addr <= e.start && end >= e.end then [e.(prot := prot)]
    else if addr <= e.start then [e.(end := end, prot := prot), Advanced(e, end)]
    else if end >= e.end then [e.(end := addr), Advanced(e, addr).(prot := prot)]
    else [e.(end := addr), Advanced(e, addr).(end := end, prot := prot), Advanced(e, end)]
  }

  /**
   What the code makes of one entry.  The right-partial case stores its fragments swapped, and a
   split that grows the array leaves the entry whole in place of its first fragment.
   */
  function Recolored(e: Entry, addr: nat, end: nat, prot: Prot, grew: bool): seq<Entry> {
    var fs :=
      if Overlaps(e, addr, end) && addr > e.start && end >= e.end then
        [Advanced(e, addr).(prot := prot), e.(end := addr)]
      else Recolor(e, addr, end, prot);
    if grew && |fs| > 1 then fs[0 := e] else fs
  }

  predicate StrictlyInside(e: Entry, addr: nat) {
    e.start < addr < e.end
  }

  ghost predicate NotInside(es: seq<Entry>, addr: nat) {
    forall i :: 0 <= i < |es| ==> !StrictlyInside(es[i], addr)
  }

  /** Entry `i` is split in three and has a successor. */
  predicate DropsLast(es: seq<Entry>, i: int, addr: nat, end: nat) {
    0 <= i < |es| - 1 && StrictlyInside(es[i], addr) && end < es[i].end
  }

  /** The entry is split at `addr` and reaches no further than the range. */
  predicate RightPartial(e: Entry, addr: nat, end: nat) {
    StrictlyInside(e, addr) && end >= e.end
  }

  /** The entry is split at `end` only. */
  predicate LeftPartial(e: Entry, addr: nat, end: nat) {
    addr <= e.start < end < e.end
  }

  /** Whether the split of entry `e` finds fewer free places than it needs, of the `room` there were. */
  ghost predicate Grows(es: seq<Entry>, addr: nat, end: nat, room: int, e: Entry) {
    if StrictlyInside(e, addr) then room < (if end < e.end then 2 else 1)
    else room == (if exists i :: 0 <= i < |es| && RightPartial(es[i], addr, end) then 1 else 0)
  }

  /** One entry after the whole call. */
  ghost function Leaves(es: seq<Entry>, addr: nat, end: nat, prot: Prot, room: int): Entry -> seq<Entry> {
    e => Recolored(e, addr, end, prot, Grows(es, addr, end, room, e))
  }

  /**
   The entries vm_map_protect leaves, having found `room` free places.  Its three-way split shifts
   twice with the same count, so with a successor the last entry is lost and the slot behind it,
   `stale`, comes in and is worked on in turn.
   */
  ghost function Protected(es: seq<Entry>, addr: nat, end: nat, prot: Prot, room: int, stale: Entry,
                           again: bool): seq<Entry> {
    if i :| DropsLast(es, i, addr, end) then
      Front(es, i, addr, end, prot, room) + Recolored(stale, addr, end, prot, again)
    else
      Rewrite(es, Leaves(es, addr, end, prot, room))
  }

  /** The entries before the stale one, after the loss at entry `i`. */
  ghost function Front(es: seq<Entry>, i: int, addr: nat, end: nat, prot: Prot, room: int): seq<Entry>
    requires DropsLast(es, i, addr, end)
  {
    es[..i] + Recolored(es[i], addr, end, prot, room < 2) + es[i + 1..|es| - 1]
  }

  function WithProt(m: Meaning, prot: Prot): Meaning {
    if m.Unmapped? then m else m.(prot := prot)
  }

  /** Exactly the mapped addresses of [addr, end) change protection. */
  ghost predicate ProtectRight(es: seq<Entry>, fs: seq<Entry>, addr: nat, end: nat, prot: Prot) {
    && WellFormed(fs)
    && forall a: nat :: Lookup(fs, a) == if addr <= a < end then WithProt(Lookup(es, a), prot) else Lookup(es, a)
  }

  lemma {:induction false} RecolorShape(e: Entry, addr: nat, end: nat, prot: Prot)
    requires e.start < e.end && addr < end
    ensures Fragments(e, Recolor(e, addr, end, prot)) && WellFormed(Recolor(e, addr, end, prot))
  {
  }

  lemma {:induction false} RecolorMeaning(e: Entry, addr: nat, end: nat, prot: Prot, a: nat)
    requires e.start < e.end && addr < end
    ensures Fragments(e, Recolor(e, addr, end, prot))
    ensures Covers(e, a) ==>
      Lookup(Recolor(e, addr, end, prot), a) == if addr <= a < end then WithProt(At(e, a), prot) else At(e, a)
  {
    var fs := Recolor(e, addr, end, prot);
    RecolorShape(e, addr, end, prot);
    hide Fragments, Lookup;
    if Covers(e, a) {
      var i := if |fs| > 2 && a >= fs[2].start then 2 else if |fs| > 1 && a >= fs[1].start then 1 else 0;
      LookupAt(fs, a, i);
      if fs[i].start == end && end <= a {
        AdvancedAt(e, end, a);
      }
      if fs[i].start == addr && addr <= a && e.start < addr {
        AdvancedAt(e, addr, a);
      }
    }
  }

  lemma {:induction false} WantedRight(es: seq<Entry>, addr: nat, end: nat, prot: Prot)
    requires WellFormed(es) && addr < end
    ensures ProtectRight(es, Rewrite(es, e => Recolor(e, addr, end, prot)), addr, end, prot)
  {
    var f := e => Recolor(e, addr, end, prot);
    forall e | e in es
      ensures Fragments(e, f(e))
    {
      RecolorMeaning(e, addr, end, prot, 0);
    }
    RewriteShape(es, f);
    forall a: nat
      ensures Lookup(Rewrite(es, f), a) == if addr <= a < end then WithProt(Lookup(es, a), prot) else Lookup(es, a)
    {
      RewriteMeaning(es, f, a);
      if i :| 0 <= i < |es| && Covers(es[i], a) {
        LookupAt(es, a, i);
        RecolorMeaning(es[i], addr, end, prot, a);
      }
    }
  }

  lemma {:induction false} RewriteSame(es: seq<Entry>, f: Entry -> seq<Entry>, g: Entry -> seq<Entry>)
    requires forall e :: e in es ==> f(e) == g(e)
    ensures Rewrite(es, f) == Rewrite(es, g)
  {
    if es != [] {
      assert es[|es| - 1] in es;
      RewriteSame(es[..|es| - 1], f, g);
    }
  }

  lemma {:induction false} RewriteConcat(es: seq<Entry>, fs: seq<Entry>, f: Entry -> seq<Entry>)
    ensures Rewrite(es + fs, f) == Rewrite(es, f) + Rewrite(fs, f)
  {
    if fs == [] {
      assert es + fs == es;
    } else {
      var n := |fs| - 1;
      RewriteConcat(es, fs[..n], f);
      assert (es + fs)[..|es + fs| - 1] == es + fs[..n];
    }
  }

  lemma {:induction false} RewriteIdentity(es: seq<Entry>, f: Entry -> seq<Entry>)
    requires forall e :: e in es ==> f(e) == [e]
    ensures Rewrite(es, f) == es
  {
    if es != [] {
      assert es[|es| - 1] in es;
      RewriteIdentity(es[..|es| - 1], f);
    }
  }

  /** Only entry `i` is touched: the rewriting in closed form. */
  lemma {:induction false} RewriteOne(es: seq<Entry>, i: nat, f: Entry -> seq<Entry>)
    requires i < |es| && forall k :: 0 <= k < |es| && k != i ==> f(es[k]) == [es[k]]
    ensures Rewrite(es, f) == es[..i] + f(es[i]) + es[i + 1..]
  {
    RewriteAround(es, i, f);
    RewriteIdentity(es[..i], f);
    RewriteIdentity(es[i + 1..], f);
  }

  lemma {:induction false} RewriteAround(es: seq<Entry>, i: nat, f: Entry -> seq<Entry>)
    requires i < |es|
    ensures Rewrite(es, f) == Rewrite(es[..i], f) + f(es[i]) + Rewrite(es[i + 1..], f)
  {
    var head, tail := es[..i + 1], es[i + 1..];
    RewriteConcat(head, tail, f);
    RewriteLast(head, f);
    hide Rewrite;
    assert es == head + tail;
    assert head[..i] == es[..i];
  }

  lemma {:induction false} RewriteLast(es: seq<Entry>, f: Entry -> seq<Entry>)
    requires es != []
    ensures Rewrite(es, f) == Rewrite(es[..|es| - 1], f) + f(es[|es| - 1])
  {
  }

  /** What must hold of the entries around `addr` and `end`, if there are any. */
  ghost predicate ProtectWorks(es: seq<Entry>, addr: nat, end: nat, room: int, stale: Entry) {
    && (forall i :: 0 <= i < |es| && StrictlyInside(es[i], addr) ==>
          end < es[i].end && room >= 2 && (i == |es| - 1 || stale == es[|es| - 1]))
    && (forall i :: 0 <= i < |es| && LeftPartial(es[i], addr, end) ==> room >= 1)
  }

  lemma {:induction false} Around(es: seq<Entry>, i: int, addr: nat, end: nat, k: int)
    requires WellFormed(es) && addr < end && 0 <= i < |es| && StrictlyInside(es[i], addr) && 0 <= k < |es|
    ensures k < i ==> !Overlaps(es[k], addr, end)
    ensures k > i && end <= es[i].end ==> !Overlaps(es[k], addr, end)
  {
  }

  lemma {:induction false} DropsLastIs(es: seq<Entry>, addr: nat, end: nat, prot: Prot, room: int, stale: Entry,
                                       again: bool, i: int)
    requires WellFormed(es) && addr < end && DropsLast(es, i, addr, end)
    ensures Protected(es, addr, end, prot, room, stale, again) ==
      Front(es, i, addr, end, prot, room) + Recolored(stale, addr, end, prot, again)
  {
    assert forall k :: DropsLast(es, k, addr, end) ==> k == i;
  }

  /** Were the last entry kept, the split in three would be what is wanted. */
  lemma {:induction false} SplitWanted(es: seq<Entry>, addr: nat, end: nat, prot: Prot, i: int)
    requires WellFormed(es) && addr < end && DropsLast(es, i, addr, end)
    ensures ProtectRight(es,
      es[..i] + Recolor(es[i], addr, end, prot) + es[i + 1..|es| - 1] + [es[|es| - 1]], addr, end, prot)
  {
    var last := es[|es| - 1];
    var f := e => Recolor(e, addr, end, prot);
    forall k | 0 <= k < |es| && k != i
      ensures f(es[k]) == [es[k]]
    {
      Around(es, i, addr, end, k);
    }
    RewriteOne(es, i, f);
    WantedRight(es, addr, end, prot);
    assert es[i + 1..] == es[i + 1..|es| - 1] + [last];
    assert es[..i] + f(es[i]) + es[i + 1..] == es[..i] + f(es[i]) + es[i + 1..|es| - 1] + [last];
  }

  /** The right-partial case leaves two entries out of order, whether it grows the array or not. */
  lemma {:induction false} SwappedWrong(es: seq<Entry>, addr: nat, end: nat, prot: Prot, room: int, stale: Entry,
                                        again: bool, i: int)
    requires WellFormed(es) && addr < end && 0 <= i < |es| && RightPartial(es[i], addr, end)
    ensures !WellFormed(Protected(es, addr, end, prot, room, stale, again))
  {
    forall k
      ensures !DropsLast(es, k, addr, end)
    {
      assert 0 <= k < i ==> es[k].end <= es[i].start;
      assert i < k < |es| ==> es[i].end <= es[k].start;
    }
    var f := Leaves(es, addr, end, prot, room);
    RewriteAround(es, i, f);
    OverlapWrong(Rewrite(es[..i], f), f(es[i]), Rewrite(es[i + 1..], f));
  }

  /** Splitting the entry makes the array grow. */
  predicate Cramps(e: Entry, addr: nat, end: nat, room: int) {
    (LeftPartial(e, addr, end) && room == 0) || (StrictlyInside(e, addr) && room < 2)
  }

  /** A split that grows the array leaves an entry over its own fragment. */
  lemma {:induction false} GrownWrong(es: seq<Entry>, addr: nat, end: nat, prot: Prot, room: int, stale: Entry,
                                      again: bool, i: int)
    requires WellFormed(es) && addr < end && 0 <= i < |es| && NoRightPartial(es, addr, end)
    requires Cramps(es[i], addr, end, room)
    ensures !WellFormed(Protected(es, addr, end, prot, room, stale, again))
  {
    var fs := Recolored(es[i], addr, end, prot, true);
    assert Overlaps(es[i], addr, end) && |fs| >= 2 && fs[0].end > fs[1].start;
    if d :| DropsLast(es, d, addr, end) {
      assert d == i;
      DropsLastIs(es, addr, end, prot, room, stale, again, d);
      var back := Recolored(stale, addr, end, prot, again);
      assert Front(es, i, addr, end, prot, room) + back == es[..i] + fs + (es[i + 1..|es| - 1] + back);
      OverlapWrong(es[..i], fs, es[i + 1..|es| - 1] + back);
    } else {
      var f := Leaves(es, addr, end, prot, room);
      assert f(es[i]) == fs;
      RewriteAround(es, i, f);
      OverlapWrong(Rewrite(es[..i], f), fs, Rewrite(es[i + 1..], f));
    }
  }

  ghost predicate NoRightPartial(es: seq<Entry>, addr: nat, end: nat) {
    forall i :: 0 <= i < |es| ==> !RightPartial(es[i], addr, end)
  }

  /** Two lists that differ only in the last entry and mean the same are the same. */
  lemma {:induction false} SameMeaningSameTail(front: seq<Entry>, x: Entry, y: Entry)
    requires WellFormed(front + [x]) && WellFormed(front + [y])
    requires forall a: nat :: Lookup(front + [x], a) == Lookup(front + [y], a)
    ensures x == y
  {
    TailCovers(front, x, y);
    TailCovers(front, y, x);
    LookupAt(front + [x], x.start, |front|);
    LookupAt(front + [y], y.start, |front|);
    if x.end < y.end {
      LookupAt(front + [y], x.end, |front|);
    } else if y.end < x.end {
      LookupAt(front + [x], y.end, |front|);
    }
  }

  lemma {:induction false} TailCovers(front: seq<Entry>, x: Entry, y: Entry)
    requires WellFormed(front + [x]) && WellFormed(front + [y])
    requires forall a: nat :: Lookup(front + [x], a) == Lookup(front + [y], a)
    ensures Covers(y, x.start)
  {
    var fx, fy := front + [x], front + [y];
    LookupAt(fx, x.start, |front|);
    assert Lookup(fy, x.start) != Unmapped;
    assert forall k :: 0 <= k < |front| ==> fx[k] == front[k] == fy[k] && fx[k].end <= x.start;
    var k :| 0 <= k < |fy| && Covers(fy[k], x.start);
  }

  /** A lost last entry shows: if the result were right, the stale slot would be that entry. */
  lemma {:induction false} LostLastShows(es: seq<Entry>, addr: nat, end: nat, prot: Prot, room: int, stale: Entry,
                                         again: bool, i: int)
    requires WellFormed(es) && addr < end && DropsLast(es, i, addr, end) && room >= 2
    requires ProtectRight(es, Protected(es, addr, end, prot, room, stale, again), addr, end, prot)
    ensures stale == es[|es| - 1]
  {
    var n := |es| - 1;
    var front := Front(es, i, addr, end, prot, room);
    DropsLastIs(es, addr, end, prot, room, stale, again, i);
    SplitWanted(es, addr, end, prot, i);
    BackIsStale(es, addr, end, prot, stale, again, i, front);
    hide Lookup, WellFormed, Protected, Recolor, Recolored;
    SameMeaningSameTail(front, stale, es[n]);
  }

  lemma {:induction false} BackIsStale(es: seq<Entry>, addr: nat, end: nat, prot: Prot, stale: Entry, again: bool,
                                       i: int, front: seq<Entry>)
    requires WellFormed(es) && addr < end && DropsLast(es, i, addr, end)
    requires front == es[..i] + Recolor(es[i], addr, end, prot) + es[i + 1..|es| - 1]
    requires WellFormed(front + Recolored(stale, addr, end, prot, again))
    ensures Recolored(stale, addr, end, prot, again) == [stale]
  {
    var n, m := |es| - 1, |front| - 1;
    var back := Recolored(stale, addr, end, prot, again);
    assert (front + back)[m] == front[m] && (front + back)[m + 1] == back[0];
    if n == i + 1 {
      assert front[m] == Recolor(es[i], addr, end, prot)[2];
    } else {
      assert front[m] == es[n - 1] && es[i].end <= es[n - 1].end;
    }
  }

  /** With room for its fragments every entry but a right-partial one is recoloured as wanted. */
  lemma {:induction false} RoomyRight(es: seq<Entry>, addr: nat, end: nat, prot: Prot, room: int)
    requires WellFormed(es) && addr < end && NoRightPartial(es, addr, end)
    requires forall i :: 0 <= i < |es| && StrictlyInside(es[i], addr) ==> room >= 2
    requires forall i :: 0 <= i < |es| && LeftPartial(es[i], addr, end) ==> room >= 1
    ensures ProtectRight(es, Rewrite(es, Leaves(es, addr, end, prot, room)), addr, end, prot)
  {
    var f, g := Leaves(es, addr, end, prot, room), e => Recolor(e, addr, end, prot);
    forall e | e in es
      ensures f(e) == g(e)
    {
      var i :| 0 <= i < |es| && es[i] == e;
      assert !RightPartial(es[i], addr, end);
    }
    RewriteSame(es, f, g);
    WantedRight(es, addr, end, prot);
  }

  /** vm_map_protect does what it promises exactly when `ProtectWorks` holds. */
  lemma {:induction false} ProtectRightIff(es: seq<Entry>, addr: nat, end: nat, prot: Prot, room: nat, stale: Entry,
                                           again: bool)
    requires WellFormed(es) && addr < end
    ensures ProtectRight(es, Protected(es, addr, end, prot, room, stale, again), addr, end, prot)
            <==> ProtectWorks(es, addr, end, room, stale)
  {
    if i :| 0 <= i < |es| && RightPartial(es[i], addr, end) {
      SwappedWrong(es, addr, end, prot, room, stale, again, i);
    } else if i :| 0 <= i < |es| && Cramps(es[i], addr, end, room) {
      GrownWrong(es, addr, end, prot, room, stale, again, i);
    } else if i :| DropsLast(es, i, addr, end) {
      if stale == es[|es| - 1] {
        DropsLastIs(es, addr, end, prot, room, stale, again, i);
        Around(es, i, addr, end, |es| - 1);
        SplitWanted(es, addr, end, prot, i);
      } else if ProtectRight(es, Protected(es, addr, end, prot, room, stale, again), addr, end, prot) {
        LostLastShows(es, addr, end, prot, room, stale, again, i);
      }
    } else {
      RoomyRight(es, addr, end, prot, room);
      forall i | 0 <= i < |es| && StrictlyInside(es[i], addr)
        ensures end < es[i].end && i == |es| - 1
      {
        assert !DropsLast(es, i, addr, end) && !RightPartial(es[i], addr, end);
      }
    }
  }

  /* ---------------- protect, round by round ---------------- */

  ghost function RecoloredUpTo(es: seq<Entry>, k: nat, f: Entry -> seq<Entry>): seq<Entry>
    requires k <= |es|
  {
    Rewrite(es[..k], f)
  }

  lemma {:induction false} RecolorStep(es: seq<Entry>, k: nat, f: Entry -> seq<Entry>)
    requires k < |es|
    ensures RecoloredUpTo(es, k + 1, f) == RecoloredUpTo(es, k, f) + f(es[k])
  {
    assert es[..k + 1][..k] == es[..k];
  }

  lemma {:induction false} BeforeSplit(es: seq<Entry>, k: nat, addr: nat, end: nat, prot: Prot, room: int)
    requires WellFormed(es) && addr < end && k < |es| && StrictlyInside(es[k], addr)
    ensures RecoloredUpTo(es, k, Leaves(es, addr, end, prot, room)) == es[..k]
    ensures forall j :: 0 <= j < k ==> !Overlaps(es[j], addr, end)
    ensures forall j :: k < j < |es| && end < es[k].end ==> !Overlaps(es[j], addr, end)
  {
    RewriteIdentity(es[..k], Leaves(es, addr, end, prot, room));
  }

  lemma {:induction false} NoDropIs(es: seq<Entry>, addr: nat, end: nat, prot: Prot, room: int, stale: Entry,
                                    again: bool)
    requires forall i :: !DropsLast(es, i, addr, end)
    ensures Protected(es, addr, end, prot, room, stale, again) ==
      RecoloredUpTo(es, |es|, Leaves(es, addr, end, prot, room))
  {
    assert es[..|es|] == es;
  }

  /* ---------------- the departures at an input ---------------- */

  /** `n` entries of three pages, each followed by a page that is not mapped. */
  function Grid(n: nat): seq<Entry> {
    seq(n, k requires 0 <= k < n =>
      Entry(0x1000_0000 + k * 0x4000, 0x1000_3000 + k * 0x4000, 7, 0, Prot(true, true, false), 0))
  }

  lemma {:induction false} GridFormed(n: nat)
    ensures WellFormed(Grid(n)) && |Grid(n)| == n
  {
  }

  /** 64 entries in the 64 places, and an unmap of the middle page of the first one. */
  lemma {:induction false} UnmapInFullArray()
    ensures WellFormed(Grid(64)) && |Grid(64)| == 64
    ensures !UnmapRight(Grid(64), UnmapLeft(Grid(64), 0x1000_1000, 0x1000_2000, true), 0x1000_1000, 0x1000_2000)
  {
    GridFormed(64);
    assert ThreeWay(Grid(64)[0], 0x1000_1000, 0x1000_2000);
    UnmapRightIff(Grid(64), 0x1000_1000, 0x1000_2000, true);
  }

  /** The first page of the first of 64 entries in 64 places: the range starts inside no entry. */
  lemma {:induction false} ProtectInFullArray(prot: Prot, stale: Entry, again: bool)
    ensures NotInside(Grid(64), 0x1000_0000)
    ensures var fs := Protected(Grid(64), 0x1000_0000, 0x1000_1000, prot, 0, stale, again);
      !ProtectRight(Grid(64), fs, 0x1000_0000, 0x1000_1000, prot)
  {
    GridFormed(64);
    assert LeftPartial(Grid(64)[0], 0x1000_0000, 0x1000_1000);
    ProtectRightIff(Grid(64), 0x1000_0000, 0x1000_1000, prot, 0, stale, again);
  }

  /** The last two pages of the only entry. */
  lemma {:induction false} ProtectRightPart(prot: Prot, stale: Entry, again: bool)
    ensures var fs := Protected(Grid(1), 0x1000_1000, 0x1000_3000, prot, 63, stale, again);
      !ProtectRight(Grid(1), fs, 0x1000_1000, 0x1000_3000, prot)
  {
    GridFormed(1);
    assert StrictlyInside(Grid(1)[0], 0x1000_1000);
    ProtectRightIff(Grid(1), 0x1000_1000, 0x1000_3000, prot, 63, stale, again);
  }

  /** The middle page of the first of two entries, with nothing yet in the places behind them. */
  lemma {:induction false} ProtectMiddlePart(prot: Prot, again: bool)
    ensures var zero := Entry(0, 0, 0, 0, Prot(false, false, false), 0);
      var fs := Protected(Grid(2), 0x1000_1000, 0x1000_2000, prot, 62, zero, again);
      !ProtectRight(Grid(2), fs, 0x1000_1000, 0x1000_2000, prot)
  {
    var zero := Entry(0, 0, 0, 0, Prot(false, false, false), 0);
    GridFormed(2);
    assert StrictlyInside(Grid(2)[0], 0x1000_1000) && zero != Grid(2)[1];
    ProtectRightIff(Grid(2), 0x1000_1000, 0x1000_2000, prot, 62, zero, again);
  }
}
