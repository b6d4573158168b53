/**
 Several address spaces over one table of shared objects, and every run of the calls on them.
 */
module VmSystem {
  import opened VmLayout
  import opened VmMap

  /** The objects, the free frames, the entries of every space, and the references held elsewhere. */
  datatype World = World(objs: Objects, free: set<nat>, maps: seq<seq<Entry>>, outside: nat -> nat)

  /** The entries of all spaces that name object `o`. */
  ghost function Total(maps: seq<seq<Entry>>, o: nat): nat {
    if maps == [] then 0 else Total(maps[..|maps| - 1], o) + Count(maps[|maps| - 1], o)
  }

  lemma {:induction false} TotalSplit(maps: seq<seq<Entry>>, m: nat, es: seq<Entry>, o: nat)
    requires m < |maps|
    ensures Total(maps[m := es], o) == Total(maps, o) - Count(maps[m], o) + Count(es, o) &&
      Total(maps, o) >= Count(maps[m], o)
  {
    var n := |maps| - 1;
    if m == n {
      assert maps[m := es][..n] == maps[..n];
    } else {
      TotalSplit(maps[..n], m, es, o);
      assert maps[m := es][..n] == maps[..n][m := es];
    }
  }

  /** Every count is the entries that name the object, in whatever space, plus the references elsewhere. */
  ghost predicate Counted(w: World) {
    && FramesOk(w.objs, w.free)
    && (forall o :: o in w.objs ==> w.objs[o].refs > 0)
    && (forall o :: Refs(w.objs, o) == Total(w.maps, o) + w.outside(o))
  }

  /** What space `m` sees as held by others. */
  ghost function Others(w: World, m: nat): nat -> nat
    requires m < |w.maps|
  {
    o => Total(w.maps[m := []], o) + w.outside(o)
  }

  /** The whole is counted if and only if each space is balanced against the others. */
  lemma {:induction false} CountedIff(w: World, m: nat, objs: Objects, free: set<nat>, es: seq<Entry>)
    requires m < |w.maps|
    ensures Counted(World(objs, free, w.maps[m := es], w.outside)) <==>
      FramesOk(objs, free) && Balanced(objs, es, Others(w, m))
  {
    forall o
      ensures Total(w.maps[m := es], o) + w.outside(o) == Count(es, o) + Others(w, m)(o)
    {
      TotalSplit(w.maps, m, es, o);
      TotalSplit(w.maps, m, [], o);
    }
  }

  /** A run: every world is counted, and no step takes a frame from a page of an object that lives on. */
  ghost predicate Steps(run: seq<World>) {
    && |run| > 0
    && (forall k :: 0 <= k < |run| ==> Counted(run[k]))
    && (forall j, k :: 0 <= j && k == j + 1 && k < |run| ==> FramesKept(run[j].objs, run[k].objs))
  }

  lemma {:induction false} StepsMore(run: seq<World>, w: World)
    requires Steps(run) && Counted(w) && FramesKept(run[|run| - 1].objs, w.objs)
    ensures Steps(run + [w])
  {
  }

  /** From world `t` on, some entry of space `m` maps address `a` to the same page of object `o`. */
  ghost predicate StaysMapped(run: seq<World>, t: nat, m: nat, a: nat, o: nat, page: int) {
    forall k :: t <= k < |run| ==> m < |run[k].maps| && MeansPage(run[k].maps[m], a, o, page)
  }

  ghost predicate MeansPage(es: seq<Entry>, a: nat, o: nat, page: int) {
    exists i :: 0 <= i < |es| && EntryMeans(es[i], a, o, page)
  }

  ghost predicate EntryMeans(e: Entry, a: nat, o: nat, page: int) {
    Covers(e, a) && At(e, a).obj == o && At(e, a).off / PAGE == page
  }

  /** With entries in order, that is what the address means. */
  lemma {:induction false} MeansPageIff(es: seq<Entry>, a: nat, o: nat, page: int)
    requires WellFormed(es)
    ensures MeansPage(es, a, o, page) <==>
      Lookup(es, a).Mapped? && Lookup(es, a).obj == o && Lookup(es, a).off / PAGE == page
  {
    if i :| 0 <= i < |es| && Covers(es[i], a) {
      LookupAt(es, a, i);
      assert Lookup(es, a) == At(es[i], a);
    } else {
      LookupNone(es, a);
    }
  }

  /** An object that an address is mapped to is alive. */
  lemma {:induction false} MappedAlive(w: World, m: nat, a: nat, o: nat, page: int)
    requires Counted(w) && m < |w.maps| && MeansPage(w.maps[m], a, o, page)
    ensures o in w.objs
  {
    var es := w.maps[m];
    var i :| 0 <= i < |es| && EntryMeans(es[i], a, o, page);
    CountMember(es, i);
    TotalSplit(w.maps, m, es, o);
    assert Refs(w.objs, o) > 0;
  }

  /** Over every run, a page keeps its frame as long as some address stays mapped to it. */
  lemma {:induction false} FrameForever(run: seq<World>, t: nat, m: nat, a: nat, o: nat, page: int)
    requires Steps(run) && t < |run| && StaysMapped(run, t, m, a, o, page) && HasFrame(run[t].objs, o, page)
    ensures var last := run[|run| - 1];
      HasFrame(last.objs, o, page) && last.objs[o].pages[page] == run[t].objs[o].pages[page]
    decreases |run|
  {
    var n := |run| - 1;
    if t < n {
      var shorter := run[..n];
      assert forall k :: 0 <= k < n ==> shorter[k] == run[k];
      FrameForever(shorter, t, m, a, o, page);
      MappedAlive(run[n], m, a, o, page);
      assert FramesKept(run[n - 1].objs, run[n].objs);
    }
  }

  /** One more world, in which space `m` and the table changed. */
  lemma {:induction false} SpaceStep(run: seq<World>, m: nat, objs: Objects, free: set<nat>, es: seq<Entry>)
    requires Steps(run) && m < |run[|run| - 1].maps|
    requires FramesOk(objs, free) && Balanced(objs, es, Others(run[|run| - 1], m)) &&
      FramesKept(run[|run| - 1].objs, objs)
    ensures var w := run[|run| - 1]; Steps(run + [World(objs, free, w.maps[m := es], w.outside)])
  {
    CountedIff(run[|run| - 1], m, objs, free, es);
  }

  /** One more world, in which one object gained or lost a reference held elsewhere. */
  lemma {:induction false} TableStep(run: seq<World>, objs: Objects, free: set<nat>, o: nat, change: int,
                                     outside: nat -> nat)
    requires Steps(run) && FramesOk(objs, free) && (forall p :: p in objs ==> objs[p].refs > 0)
    requires FramesKept(run[|run| - 1].objs, objs)
    requires forall p :: Refs(objs, p) == Refs(run[|run| - 1].objs, p) + (if p == o then change else 0)
    requires forall p :: outside(p) == run[|run| - 1].outside(p) + (if p == o then change else 0)
    ensures Steps(run + [World(objs, free, run[|run| - 1].maps, outside)])
  {
  }

  /** Every reference, as seen by a space that has none. */
  ghost function Held(objs: Objects): nat -> nat {
    o => Refs(objs, o)
  }

  lemma {:induction false} EmptyBalanced(objs: Objects)
    requires forall o :: o in objs ==> objs[o].refs > 0
    ensures Balanced(objs, [], Held(objs))
  {
  }

  lemma {:induction false} EmptyStep(run: seq<World>)
    requires Steps(run)
    ensures var w := run[|run| - 1]; Steps(run + [w.(maps := w.maps + [[]])])
  {
    var w := run[|run| - 1];
    assert (w.maps + [[]])[..|w.maps|] == w.maps;
    FramesKeptRefl(w.objs);
    StepsMore(run, w.(maps := w.maps + [[]]));
  }

  lemma {:induction false} NotHeld(run: seq<World>, o: nat)
    requires Steps(run) && o !in run[|run| - 1].objs
    ensures run[|run| - 1].outside(o) == 0
  {
    assert Refs(run[|run| - 1].objs, o) == 0;
  }

  /** No fault at `a` meets a page whose number the page array cannot pass. */
  ghost predicate AllReachable(objs: Objects, es: seq<Entry>, a: nat) {
    forall k :: 0 <= k < |es| && Covers(es[k], a) ==> Reachable(objs, At(es[k], a))
  }

  lemma {:induction false} StillReachable(objs: Objects, objs': Objects, es: seq<Entry>, a: nat)
    requires AllReachable(objs, es, a) && SameSizes(objs, objs')
    ensures AllReachable(objs', es, a)
  {
  }

  /** The frames of two faults one after the other. */
  lemma {:induction false} TwoFaults(run: seq<World>, m: nat, a: nat, o: nat, page: nat, p: nat, n: nat, b: nat, r: nat,
                                     leaf: nat, q: nat)
    requires Steps(run) && |run| >= 2 && run[|run| - 2].maps == run[|run| - 1].maps
    requires var maps := run[|run| - 1].maps;
      && m < |maps| && WellFormed(maps[m]) && MeansPage(maps[m], a, o, page)
      && n < |maps| && WellFormed(maps[n]) && MeansPage(maps[n], b, r, leaf)
    requires HasFrame(run[|run| - 2].objs, o, page) && p == run[|run| - 2].objs[o].pages[page]
    requires HasFrame(run[|run| - 1].objs, r, leaf) && q == run[|run| - 1].objs[r].pages[leaf]
    ensures var maps := run[|run| - 1].maps;
      var x, y := Lookup(maps[m], a), Lookup(maps[n], b);
      x.Mapped? && y.Mapped? && (p == q <==> x.obj == y.obj && x.off / PAGE == y.off / PAGE)
  {
    hide Steps, WellFormed, Lookup, MeansPage;
    var maps := run[|run| - 1].maps;
    MeansPageIff(maps[m], a, o, page);
    MeansPageIff(maps[n], b, r, leaf);
    FrameForever(run, |run| - 2, m, a, o, page);
    LastFrames(run, o, page, r, leaf);
  }

  /** What could be resolved still can after another fault, with two free frames to start with. */
  lemma {:induction false} StillResolvable(objs: Objects, objs': Objects, free: set<nat>, free': set<nat>, o: nat,
                                           page: nat, ok: bool, phys: nat, m: Meaning, write: bool, canGrow: bool,
                                           canMap: bool)
    requires Resolvable(objs, free, m, write, canGrow, canMap) && |free| >= 2
    requires SameSizes(objs, objs') && FramesKept(objs, objs') && FrameTaken(objs, free, o, page, ok, phys, free')
    ensures Resolvable(objs', free', m, write, canGrow, canMap)
  {
    assert |free'| >= |free| - 1;
  }

  /** Two pages have one frame only if they are the same page. */
  lemma {:induction false} LastFrames(run: seq<World>, o: nat, page: nat, r: nat, leaf: nat)
    requires Steps(run)
    requires var objs := run[|run| - 1].objs; HasFrame(objs, o, page) && HasFrame(objs, r, leaf)
    ensures var objs := run[|run| - 1].objs;
      objs[o].pages[page] == objs[r].pages[leaf] <==> o == r && page == leaf
  {
  }

  lemma {:induction false} FramesSince(run: seq<World>, o: nat, page: nat)
    requires Steps(run) && HasFrame(run[|run| - 1].objs, o, page)
    ensures forall t: nat, n: nat, a: nat ::
      t < |run| && StaysMapped(run, t, n, a, o, page) && HasFrame(run[t].objs, o, page) ==>
        run[|run| - 1].objs[o].pages[page] == run[t].objs[o].pages[page]
  {
    forall t: nat, n: nat, a: nat |
      t < |run| && StaysMapped(run, t, n, a, o, page) && HasFrame(run[t].objs, o, page)
      ensures run[|run| - 1].objs[o].pages[page] == run[t].objs[o].pages[page]
    {
      FrameForever(run, t, n, a, o, page);
    }
  }

  /** When a world with entries lost is counted all the same. */
  lemma {:induction false} Settled(w: World, m: nat, objs: Objects, free: set<nat>, es: seq<Entry>, gone: seq<Entry>,
                                   come: seq<Entry>)
    requires m < |w.maps| && FramesOk(objs, free) && Owed(objs, es, Others(w, m), gone, come)
    ensures var next := World(objs, free, w.maps[m := es], w.outside);
      && (Counted(next) <==> Balanced(objs, es, Others(w, m)))
      && (Cancels(objs, gone, come) ==> Counted(next))
      && (Counted(next) && (forall e :: e in come ==> e.obj in objs) ==> Cancels(objs, gone, come))
  {
    hide Owed, Balanced, Others;
    CountedIff(w, m, objs, free, es);
    if forall e :: e in come ==> e.obj in objs {
      OwedIff(objs, es, Others(w, m), gone, come);
    }
  }

  lemma {:induction false} NotCounted(run: seq<World>, w: World)
    requires !Counted(w)
    ensures !(Steps(run) && run[|run| - 1] == w)
  {
  }

  /** The spaces are distinct, with arrays of their own, over one table. */
  ghost predicate AllApart(spaces: seq<AddressSpace>, table: ObjectTable)
    reads spaces
  {
    && (forall i, j :: 0 <= i < j < |spaces| ==> spaces[i] != spaces[j] && spaces[i].entries != spaces[j].entries)
    && (forall i :: 0 <= i < |spaces| ==> spaces[i].table == table && spaces[i].Fits())
  }

  ghost function ArraysOf(spaces: seq<AddressSpace>): set<array<Entry>>
    reads spaces
  {
    set i | 0 <= i < |spaces| :: spaces[i].entries
  }

  ghost function EntriesOf(spaces: seq<AddressSpace>, table: ObjectTable): (maps: seq<seq<Entry>>)
    requires AllApart(spaces, table)
    reads spaces, ArraysOf(spaces)
    ensures |maps| == |spaces| && forall i :: 0 <= i < |maps| ==> maps[i] == spaces[i].Es()
  {
    seq(|spaces|, i requires 0 <= i < |spaces| && AllApart(spaces, table) reads spaces, ArraysOf(spaces) =>
      spaces[i].Es())
  }

  class System {
    const table: ObjectTable
    var spaces: seq<AddressSpace>
    ghost var outside: nat -> nat
    ghost var run: seq<World>

    ghost predicate Apart()
      reads `spaces, spaces
    {
      AllApart(spaces, table)
    }

    ghost function Arrays(): set<array<Entry>>
      reads `spaces, spaces
    {
      ArraysOf(spaces)
    }

    /** The entries of every space. */
    ghost function Maps(): (maps: seq<seq<Entry>>)
      requires Apart()
      reads `spaces, spaces, Arrays()
      ensures |maps| == |spaces| && forall i :: 0 <= i < |maps| ==> maps[i] == spaces[i].Es()
    {
      EntriesOf(spaces, table)
    }

    ghost function Now(): World
      requires Apart()
      reads `spaces, `outside, table, spaces, Arrays()
    {
      World(table.objs, table.free, Maps(), outside)
    }

    ghost predicate Valid()
      reads this, table, spaces, Arrays()
    {
      Apart() && table.Valid() && Steps(run) && run[|run| - 1] == Now()
    }

    constructor (free: set<nat>)
      requires 0 !in free
      ensures Valid() && fresh(table) && spaces == [] && table.free == free
    {
      table := new ObjectTable(free);
      spaces := [];
      outside := _ => 0;
      new;
      run := [Now()];
    }

    /** The world as it is now joins the run. */
    ghost method Record()
      requires Apart() && table.Valid() && Steps(run + [Now()])
      modifies `run
      ensures Valid() && run == old(run) + [Now()] && Now() == old(Now())
    {
      hide Steps, AllApart, EntriesOf, ArraysOf;
      run := run + [Now()];
    }

    /** vm_map_init. */
    method NewSpace() returns (m: nat)
      requires Valid()
      modifies this
      ensures Valid() && |spaces| == m + 1 && spaces[..m] == old(spaces) && run == old(run) + [Now()]
      ensures Now() == World(old(table.objs), old(table.free), old(Maps()) + [[]], old(outside))
    {
      hide Steps, Balanced, FramesOk, Counted, Held;
      ghost var maps := Maps();
      EmptyBalanced(table.objs);
      var s := new AddressSpace(table, Held(table.objs));
      m := |spaces|;
      spaces := spaces + [s];
      assert Apart();
      assert Maps() == maps + [[]];
      EmptyStep(run);
      Record();
    }

    ghost predicate InOrder(m: nat)
      requires m < |spaces| && spaces[m].Fits()
      reads this, spaces, Arrays()
    {
      WellFormed(spaces[m].Es())
    }

    /** Each space is balanced against everything else. */
    lemma {:induction false} Seen(m: nat)
      requires Valid() && m < |spaces|
      ensures Balanced(table.objs, spaces[m].Es(), Others(Now(), m))
    {
      CountedIff(Now(), m, table.objs, table.free, spaces[m].Es());
      assert Maps()[m := spaces[m].Es()] == Maps();
    }

    /** Nothing but space `m` has changed, so the others' entries are what they were. */
    twostate lemma {:induction false} OnlySpace(m: nat)
      requires old(Apart()) && spaces == old(spaces) && m < |spaces|
      requires spaces[m].Fits() && (spaces[m].entries == old(spaces[m].entries) || fresh(spaces[m].entries))
      requires forall i :: 0 <= i < |spaces| && i != m ==> unchanged(spaces[i]) && unchanged(old(spaces[i].entries))
      ensures Apart() && Maps() == old(Maps())[m := spaces[m].Es()]
    {
    }

    /** vm_map_map in space `m`. */
    method Map(m: nat, addr: nat, obj: nat, off: Word64, size: nat, prot: Prot, inherit: nat, canAlloc: bool)
      returns (ok: bool)
      requires Valid() && m < |spaces| && obj in table.objs && addr < U64 && size < U64
      modifies this`run, spaces[m], spaces[m].entries, table
      ensures Valid() && run == old(run) + [Now()] && outside == old(outside)
      ensures Maps() == old(Maps())[m := spaces[m].Es()]
      ensures !ok ==> Maps() == old(Maps())
      ensures ok <==> Mappable(old(spaces[m].Es()), addr, off, size) && !old(spaces[m].Cramped(1, canAlloc))
      ensures ok ==> Inserted(old(spaces[m].Es()), spaces[m].Es(), Entry(addr, addr + size, obj, off, prot, inherit))
      ensures old(InOrder(m)) ==> InOrder(m)
      ensures ok && old(InOrder(m)) ==>
        && (forall a: nat :: addr <= a < addr + size ==> Lookup(old(spaces[m].Es()), a) == Unmapped)
        && (forall a: nat :: Lookup(spaces[m].Es(), a) ==
              if addr <= a < addr + size then Mapped(obj, (off + (a - addr)) % U64, prot, inherit)
              else Lookup(old(spaces[m].Es()), a))
    {
      hide Steps, Balanced, FramesOk, FramesKept, Counted, Others, WellFormed, Lookup, Count, Inserted;
      Seen(m);
      ok := spaces[m].Map(addr, obj, off, size, prot, inherit, canAlloc, Others(Now(), m));
      OnlySpace(m);
      SpaceStep(run, m, table.objs, table.free, spaces[m].Es());
      Record();
    }

    /** vm_map_unmap in space `m`. */
    method Unmap(m: nat, addr: nat, size: nat, canAlloc: bool) returns (ok: bool)
      requires Valid() && m < |spaces| && addr < U64 && size < U64
      modifies this`run, spaces[m], spaces[m].entries, table
      ensures Valid() && run == old(run) + [Now()] && outside == old(outside)
      ensures Maps() == old(Maps())[m := spaces[m].Es()]
      ensures !ok && old(InOrder(m)) ==> Maps() == old(Maps())
      ensures old(InOrder(m)) ==>
        (ok <==>
          && 0 < size < U64 - addr
          && !(AnySplit(old(spaces[m].Es()), addr, addr + size) && old(spaces[m].Cramped(1, canAlloc))))
      ensures ok && old(InOrder(m)) ==>
        (UnmapRight(old(spaces[m].Es()), spaces[m].Es(), addr, addr + size)
         <==> !SplitGrows(old(spaces[m].Es()), addr, addr + size, old(spaces[m].count == spaces[m].entries.Length)))
    {
      hide Steps, Balanced, FramesOk, FramesKept, Counted, Others, WellFormed, Lookup, Count;
      hide UnmapRight, UnmapLeft, SplitGrows;
      Seen(m);
      ok := spaces[m].UnmapRange(addr, size, canAlloc, Others(Now(), m));
      OnlySpace(m);
      SpaceStep(run, m, table.objs, table.free, spaces[m].Es());
      Record();
    }

    /**
     vm_map_protect in space `m`.  It is a step of the run unless the entries that it lost and those
     that came in for them do not cancel; then, if those that came in name living objects, the counts
     are wrong.  On entries in order that is said by the last entry and the stale slot.
     */
    method Protect(m: nat, addr: nat, size: nat, prot: Prot, canAlloc: bool)
      returns (ok: bool, ghost stale: Entry, ghost gone: seq<Entry>, ghost come: seq<Entry>)
      requires Valid() && m < |spaces| && addr < U64 && size < U64
      modifies this`run, spaces[m], spaces[m].entries, table
      ensures Apart() && Maps() == old(Maps())[m := spaces[m].Es()] && outside == old(outside)
      ensures Valid() <==> Counted(Now())
      ensures Valid() ==> run == old(run) + [Now()]
      ensures Cancels(table.objs, gone, come) ==> Valid()
      ensures Valid() && (forall e :: e in come ==> e.obj in table.objs) ==> Cancels(table.objs, gone, come)
      ensures NothingLost(old(spaces[m].Es()), addr, addr + size) ==> Valid() && gone == come == []
      ensures gone != [] && old(InOrder(m)) ==>
        LostOnce(old(spaces[m].Es()), gone, come, stale) && (Valid() <==> stale.obj == gone[0].obj)
      ensures old(InOrder(m)) && old(spaces[m].count + 2 <= spaces[m].entries.Length) ==>
        stale == old(spaces[m].entries[spaces[m].count + 1])
      ensures !ok ==> size == 0 || addr + size >= U64 || spaces[m].NoPlace(addr, addr + size, prot, canAlloc)
      ensures ok && old(InOrder(m)) ==>
        (ProtectRight(old(spaces[m].Es()), spaces[m].Es(), addr, addr + size, prot)
         <==> ProtectWorks(old(spaces[m].Es()), addr, addr + size, old(spaces[m].Room()), stale))
    {
      hide Steps, Balanced, FramesOk, FramesKept, Counted, Others, WellFormed, Lookup, Count, Owed, Cancels;
      hide ProtectRight, ProtectWorks, Protected, StoppedAt, NothingLost, LostOnce;
      Seen(m);
      ghost var again, k;
      ok, stale, again, k, gone, come := spaces[m].Protect(addr, size, prot, canAlloc, Others(Now(), m));
      OnlySpace(m);
      Settled(old(Now()), m, table.objs, table.free, spaces[m].Es(), gone, come);
      if Counted(Now()) {
        SpaceStep(run, m, table.objs, table.free, spaces[m].Es());
        Record();
      } else {
        NotCounted(run, Now());
      }
    }

    /** vm_map_destroy of space `m`. */
    method Destroy(m: nat)
      requires Valid() && m < |spaces|
      modifies this`run, spaces[m], spaces[m].entries, table
      ensures Valid() && InOrder(m) && run == old(run) + [Now()] && outside == old(outside)
      ensures Maps() == old(Maps())[m := []]
    {
      hide Steps, Balanced, FramesOk, FramesKept, Counted, Others, Lookup, Count;
      Seen(m);
      spaces[m].Destroy(Others(Now(), m));
      OnlySpace(m);
      SpaceStep(run, m, table.objs, table.free, spaces[m].Es());
      Record();
    }

    /**
     vm_map_resolve_fault in space `m`: page `page` of object `o` has the frame that is the answer.  If
     since some earlier world any address of any space has stayed mapped to that page, and it had a
     frame then, that frame is the answer.
     */
    method Fault(m: nat, addr: nat, write: bool, canGrow: bool, canMap: bool)
      returns (ok: bool, phys: nat, ghost o: nat, ghost page: nat)
      requires Valid() && m < |spaces| && addr < U64
      requires AllReachable(table.objs, spaces[m].Es(), addr)
      modifies this`run, table
      ensures Valid() && run == old(run) + [Now()] && outside == old(outside) && Maps() == old(Maps())
      ensures SameSizes(old(table.objs), table.objs) && FramesKept(old(table.objs), table.objs)
      ensures ok ==>
        && MeansPage(spaces[m].Es(), addr, o, page)
        && HasFrame(table.objs, o, page) && phys == table.objs[o].pages[page]
      ensures FrameTaken(old(table.objs), old(table.free), o, page, ok, phys, table.free)
      ensures ok ==> exists k ::
        0 <= k < |spaces[m].Es()| && Covers(spaces[m].Es()[k], addr) &&
        Resolved(table.objs, At(spaces[m].Es()[k], addr), write, phys)
      ensures InOrder(m) ==>
        (ok <==> Resolvable(old(table.objs), old(table.free), Lookup(spaces[m].Es(), addr), write, canGrow, canMap))
      ensures ok ==> forall t: nat, n: nat, a: nat ::
        t < |run| && StaysMapped(run, t, n, a, o, page) && HasFrame(run[t].objs, o, page) ==>
          phys == run[t].objs[o].pages[page]
    {
      hide Steps, Balanced, FramesOk, FramesKept, Counted, Others, WellFormed, Lookup, Count, Reachable;
      Seen(m);
      ghost var found;
      o, page := 0, 0;
      ok, phys, found := spaces[m].ResolveFault(addr, write, canGrow, canMap, Others(Now(), m));
      OnlySpace(m);
      SpaceStep(run, m, table.objs, table.free, spaces[m].Es());
      Record();
      if ok {
        ghost var l := At(spaces[m].entries[found], addr);
        o, page := l.obj, l.off / PAGE;
        assert EntryMeans(spaces[m].Es()[found], addr, o, page);
        FramesSince(run, o, page);
      }
    }

    /**
     Two faults, in one space or in two, with entries in order: they get one frame if and only if the
     addresses mean the same page of the same object.
     */
    method FaultBoth(m: nat, a: nat, n: nat, b: nat, write: bool, canGrow: bool, canMap: bool)
      returns (ok: bool, p: nat, q: nat)
      requires Valid() && m < |spaces| && n < |spaces| && InOrder(m) && InOrder(n) && a < U64 && b < U64
      requires AllReachable(table.objs, spaces[m].Es(), a) && AllReachable(table.objs, spaces[n].Es(), b)
      modifies this`run, table
      ensures Valid() && Maps() == old(Maps())
      ensures ok ==>
        var x, y := Lookup(spaces[m].Es(), a), Lookup(spaces[n].Es(), b);
        x.Mapped? && y.Mapped? && (p == q <==> x.obj == y.obj && x.off / PAGE == y.off / PAGE)
      ensures
        && Resolvable(old(table.objs), old(table.free), Lookup(spaces[m].Es(), a), write, canGrow, canMap)
        && Resolvable(old(table.objs), old(table.free), Lookup(spaces[n].Es(), b), write, canGrow, canMap)
        && old(|table.free|) >= 2
        ==> ok
    {
      hide Steps, FramesOk, FramesKept, Counted, WellFormed, Lookup, Count, MeansPage, Resolvable, SameSizes;
      hide FrameTaken, Resolved, AllReachable, Covers, HasFrame, Balanced, Others, StaysMapped, EntryMeans;
      ghost var objs, free, maps := table.objs, table.free, Maps();
      ghost var o, page, r, leaf;
      ok, p, o, page := Fault(m, a, write, canGrow, canMap);
      q := 0;
      if !ok {
        return;
      }
      StillReachable(objs, table.objs, spaces[n].Es(), b);
      ghost var y := Lookup(spaces[n].Es(), b);
      if |free| >= 2 && Resolvable(objs, free, y, write, canGrow, canMap) {
        StillResolvable(objs, table.objs, free, table.free, o, page, ok, p, y, write, canGrow, canMap);
      }
      ok, q, r, leaf := Fault(n, b, write, canGrow, canMap);
      if ok {
        TwoFaults(run, m, a, o, page, p, n, b, r, leaf, q);
      }
    }

    /** vm_object_create_shared by someone who maps nothing yet. */
    method Create(o: nat, size: nat, canAlloc: bool) returns (ok: bool)
      requires Valid() && o !in table.objs
      modifies this`run, this`outside, table
      ensures Valid() && run == old(run) + [Now()] && Maps() == old(Maps()) && (ok <==> size > 0 && canAlloc)
      ensures table.objs == if ok then old(table.objs)[o := Object(1, size, [])] else old(table.objs)
      ensures forall p: nat :: outside(p) == old(outside)(p) + (if ok && p == o then 1 else 0)
      ensures ok ==> outside(o) == 1
    {
      hide Steps, FramesOk, FramesKept, Counted, Count, AllApart, ArraysOf, EntriesOf;
      ghost var maps := Maps();
      NotHeld(run, o);
      ok := table.CreateShared(o, size, canAlloc);
      ghost var was, change := outside, if ok then 1 else 0;
      outside := p => if p == o then was(p) + change else was(p);
      assert Maps() == maps;
      TableStep(run, table.objs, table.free, o, change, outside);
      Record();
    }

    /** vm_object_release by a holder that is not an entry. */
    method Drop(o: nat)
      requires Valid() && o in table.objs && outside(o) > 0
      modifies this`run, this`outside, table
      ensures Valid() && run == old(run) + [Now()] && Maps() == old(Maps())
      ensures RefsShifted(old(table.objs), table.objs, o, -1)
      ensures forall p: nat :: outside(p) == old(outside)(p) - (if p == o then 1 else 0)
    {
      hide Steps, FramesOk, FramesKept, Counted, Count, AllApart, ArraysOf, EntriesOf, Refs;
      ghost var maps := Maps();
      table.Release(o);
      ghost var was := outside;
      outside := p => if p == o && was(p) > 0 then was(p) - 1 else was(p);
      assert Maps() == maps;
      TableStep(run, table.objs, table.free, o, -1, outside);
      Record();
    }
  }
}
