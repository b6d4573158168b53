/**
 Any number of tasks with their capability spaces, and ports between them: what every run of
 creating, allocating, freeing, sending, receiving and exiting does to the records granted.
 */
module IpcSystem {
  import opened CSpace
  import opened Port

  /** The slots and bitmap of a task; a task that is gone has none. */
  datatype Table = Table(slots: seq<Slot>, bitmap: seq<Word>)

  const NO_TABLE := Table([], [])

  ghost function GrantedTo(t: Table): multiset<Slot> {
    if |t.slots| <= WORD_BITS * |t.bitmap| then GrantedIn(t.slots, t.bitmap) else multiset{}
  }

  /** The records granted to all tasks together. */
  ghost function Sum(tables: seq<Table>): multiset<Slot> {
    if tables == [] then multiset{} else Sum(tables[..|tables| - 1]) + GrantedTo(tables[|tables| - 1])
  }

  lemma {:induction false} SumUpdate(tables: seq<Table>, k: nat, t: Table)
    requires k < |tables|
    ensures Sum(tables[k := t]) + GrantedTo(tables[k]) == Sum(tables) + GrantedTo(t)
  {
    hide GrantedTo;
    var n := |tables| - 1;
    if k == n {
      assert tables[k := t][..n] == tables[..n];
    } else {
      SumUpdate(tables[..n], k, t);
      assert tables[k := t][..n] == tables[..n][k := t];
      var x, y, z := Sum(tables[..n][k := t]), Sum(tables[..n]), GrantedTo(tables[n]);
      assert x + z + GrantedTo(tables[k]) == x + GrantedTo(tables[k]) + z;
      assert y + z + GrantedTo(t) == y + GrantedTo(t) + z;
    }
  }

  lemma {:induction false} Exchange(a: multiset<Slot>, b: multiset<Slot>, x: multiset<Slot>, y: multiset<Slot>,
                                    less: multiset<Slot>, more: multiset<Slot>)
    requires a + x == b + y && y + less == x + more
    ensures a + less == b + more
  {
    forall s
      ensures (a + less)[s] == (b + more)[s]
    {
      assert (a + x)[s] == (b + y)[s] && (y + less)[s] == (x + more)[s];
    }
  }

  /** One task's records change. */
  lemma {:induction false} OneChanges(ts: seq<Table>, us: seq<Table>, k: nat, less: multiset<Slot>,
                                      more: multiset<Slot>)
    requires k < |ts| == |us| && us == ts[k := us[k]]
    requires GrantedTo(us[k]) + less == GrantedTo(ts[k]) + more
    ensures Sum(us) + less == Sum(ts) + more
  {
    hide GrantedTo;
    SumUpdate(ts, k, us[k]);
    Exchange(Sum(us), Sum(ts), GrantedTo(ts[k]), GrantedTo(us[k]), less, more);
  }

  /** Records move between two tasks. */
  lemma {:induction false} TwoChange(ts: seq<Table>, us: seq<Table>, i: nat, j: nat, more: multiset<Slot>)
    requires i < |ts| == |us| && j < |ts| && i != j && us == ts[i := us[i]][j := us[j]]
    requires GrantedTo(us[i]) + GrantedTo(us[j]) == GrantedTo(ts[i]) + GrantedTo(ts[j]) + more
    ensures Sum(us) == Sum(ts) + more
  {
    hide GrantedTo;
    var mid := ts[i := us[i]];
    SumUpdate(ts, i, us[i]);
    SumUpdate(mid, j, us[j]);
    assert mid[j] == ts[j];
    forall s
      ensures Sum(us)[s] == (Sum(ts) + more)[s]
    {
      assert (Sum(mid) + GrantedTo(ts[i]))[s] == (Sum(ts) + GrantedTo(us[i]))[s];
      assert (Sum(us) + GrantedTo(ts[j]))[s] == (Sum(mid) + GrantedTo(us[j]))[s];
      assert (GrantedTo(us[i]) + GrantedTo(us[j]))[s] == (GrantedTo(ts[i]) + GrantedTo(ts[j]) + more)[s];
    }
  }

  /** What is granted and what was withdrawn is what was issued and what was forged. */
  ghost predicate Ledger(tables: seq<Table>, issued: multiset<Slot>, withdrawn: multiset<Slot>,
                         forged: multiset<Slot>) {
    Sum(tables) + withdrawn == issued + forged
  }

  lemma {:induction false} LedgerStep(ts: seq<Table>, us: seq<Table>, issued: multiset<Slot>, withdrawn: multiset<Slot>,
                                      forged: multiset<Slot>, less: multiset<Slot>, more: multiset<Slot>,
                                      made: multiset<Slot>)
    requires Ledger(ts, issued, withdrawn, forged) && Sum(us) + less == Sum(ts) + more + made
    ensures Ledger(us, issued + more, withdrawn + less, forged + made)
  {
    hide Sum;
    forall s
      ensures (Sum(us) + (withdrawn + less))[s] == ((issued + more) + (forged + made))[s]
    {
      assert (Sum(us) + less)[s] == (Sum(ts) + more + made)[s];
      assert (Sum(ts) + withdrawn)[s] == (issued + forged)[s];
    }
  }

  /** A record granted to a task is among those granted to all. */
  lemma {:induction false} GrantedInSum(tables: seq<Table>, k: nat)
    requires k < |tables|
    ensures GrantedTo(tables[k]) <= Sum(tables)
  {
    hide GrantedTo;
    if k < |tables| - 1 {
      GrantedInSum(tables[..|tables| - 1], k);
    }
  }

  lemma {:induction false} OneTableMore(ts: seq<Table>, t: Table, issued: multiset<Slot>, withdrawn: multiset<Slot>,
                                        forged: multiset<Slot>)
    requires GrantedTo(t) == multiset{} && Marked(t.slots, t.bitmap) && Ledger(ts, issued, withdrawn, forged)
    ensures Ledger(ts + [t], issued, withdrawn, forged) && (AllExact(ts) ==> AllExact(ts + [t]))
  {
    hide GrantedTo, Marked;
    assert (ts + [t])[..|ts|] == ts;
  }

  ghost predicate AllExact(tables: seq<Table>) {
    forall k :: 0 <= k < |tables| ==> tables[k] == NO_TABLE || Marked(tables[k].slots, tables[k].bitmap)
  }

  /**
   If all memory for larger tables looked unused, then in every state of every run nothing is forged,
   each table shows exactly what its task was granted, and each record granted was issued and not
   withdrawn.
   */
  lemma {:induction false} NothingForged(tables: seq<Table>, issued: multiset<Slot>, withdrawn: multiset<Slot>, k: nat)
    requires Ledger(tables, issued, withdrawn, multiset{}) && AllExact(tables) && k < |tables|
    ensures Caps(tables[k].slots) == GrantedTo(tables[k]) <= issued && Sum(tables) == issued - withdrawn
  {
    hide Sum, GrantedTo, Caps, Marked;
    GrantedInSum(tables, k);
    assert Sum(tables) == Sum(tables) + withdrawn - withdrawn;
    ExactShows(tables[k]);
  }

  lemma {:induction false} ExactShows(t: Table)
    requires t == NO_TABLE || Marked(t.slots, t.bitmap)
    ensures Caps(t.slots) == GrantedTo(t)
  {
    hide Caps;
    if t == NO_TABLE {
      NoRecords(t.slots);
      NoRecords(Masked(t.slots, t.bitmap, true));
    } else {
      MarkedIff(t.slots, t.bitmap);
    }
  }

  /* ---------------- the system ---------------- */

  ghost function TableOf(space: Space, alive: bool): Table
    reads space
  {
    if alive then Table(space.slots, space.bitmap) else NO_TABLE
  }

  ghost function TablesOf(spaces: seq<Space>, alive: seq<bool>): (ts: seq<Table>)
    requires |alive| == |spaces|
    reads spaces
    ensures |ts| == |spaces| && forall i :: 0 <= i < |ts| ==> ts[i] == TableOf(spaces[i], alive[i])
  {
    seq(|spaces|, i requires 0 <= i < |spaces| == |alive| reads spaces => TableOf(spaces[i], alive[i]))
  }

  ghost predicate SpacesOk(spaces: seq<Space>, alive: seq<bool>)
    reads spaces
  {
    && |alive| == |spaces| > 0 && !alive[0]
    && (forall i, j :: 0 <= i < j < |spaces| ==> spaces[i] != spaces[j])
    && (forall i :: 0 <= i < |spaces| && alive[i] ==> spaces[i].Valid())
  }

  ghost predicate PortsOk(ports: seq<IpcPort>)
    reads ports
  {
    && (forall i, j :: 0 <= i < j < |ports| ==> ports[i] != ports[j])
    && (forall i :: 0 <= i < |ports| ==> ports[i].Valid())
  }

  predicate Living(alive: seq<bool>, t: nat) {
    t < |alive| && alive[t]
  }

  /** The tasks that exist, by number. */
  function TaskMap(spaces: seq<Space>, alive: seq<bool>): (tasks: map<nat, Space>)
    requires |alive| == |spaces|
    ensures forall t :: t in tasks <==> Living(alive, t)
    ensures forall t :: t in tasks ==> t < |spaces| && tasks[t] == spaces[t]
    ensures forall s :: s in tasks.Values ==> s in spaces
  {
    map t: nat | t < |spaces| && alive[t] :: spaces[t]
  }

  class System {
    /** By task number; number 0 is the kernel and no task. */
    var spaces: seq<Space>
    var alive: seq<bool>
    var ports: seq<IpcPort>
    ghost var issued: multiset<Slot>
    ghost var withdrawn: multiset<Slot>
    ghost var forged: multiset<Slot>

    /** Whether all memory that was there for larger tables looked unused. */
    ghost var blank: bool

    ghost predicate Apart()
      reads `spaces, `alive, `ports, spaces, ports
    {
      SpacesOk(spaces, alive) && PortsOk(ports)
    }

    ghost function Tables(): seq<Table>
      requires |alive| == |spaces|
      reads `spaces, `alive, spaces
    {
      TablesOf(spaces, alive)
    }

    ghost predicate Valid()
      reads this, spaces, ports
    {
      && Apart() && Ledger(Tables(), issued, withdrawn, forged)
      && (blank ==> forged == multiset{} && AllExact(Tables()))
    }

    ghost predicate Lives(t: nat)
      reads `spaces, `alive
    {
      |spaces| == |alive| && Living(alive, t)
    }

    constructor ()
      ensures Valid() && alive == [false] && ports == [] && issued == withdrawn == forged == multiset{} && blank
    {
      var none := new Space();
      spaces, alive, ports := [none], [false], [];
      issued, withdrawn, forged, blank := multiset{}, multiset{}, multiset{}, true;
    }

    /** The books after a call: what was withdrawn, issued and forged by it. */
    ghost method Enter(ts: seq<Table>, less: multiset<Slot>, more: multiset<Slot>, made: multiset<Slot>)
      requires Apart() && Ledger(ts, issued, withdrawn, forged) && Sum(Tables()) + less == Sum(ts) + more + made
      requires blank ==> forged == made == multiset{} && AllExact(Tables())
      modifies `issued, `withdrawn, `forged
      ensures Valid() && Tables() == old(Tables())
      ensures issued == old(issued) + more && withdrawn == old(withdrawn) + less && forged == old(forged) + made
    {
      hide Ledger, Sum, PortsOk, TablesOf, AllExact;
      LedgerStep(ts, Tables(), issued, withdrawn, forged, less, more, made);
      issued, withdrawn, forged := issued + more, withdrawn + less, forged + made;
    }

    /** task_create with cspace_init. */
    method NewTask() returns (t: nat)
      requires Valid()
      modifies this
      ensures Valid() && t + 1 == |spaces| && spaces[..t] == old(spaces)
      ensures alive == old(alive) + [true] && ports == old(ports) && blank == old(blank)
      ensures issued == old(issued) && withdrawn == old(withdrawn) && forged == old(forged)
    {
      hide Caps, GrantedIn, GrantedTo, Sound, Marked, PortsOk, Ledger, AllExact, Sum;
      ghost var ts := Tables();
      var s := new Space();
      t := |spaces|;
      spaces, alive := spaces + [s], alive + [true];
      assert Tables() == ts + [Table(s.slots, s.bitmap)];
      GrantedToIs(s.slots, s.bitmap);
      OneTableMore(ts, Table(s.slots, s.bitmap), issued, withdrawn, forged);
    }

    /** task_destroy with cspace_destroy: what the task was granted is gone. */
    method Exit(t: nat)
      requires Valid() && Lives(t)
      modifies `alive, `withdrawn, `issued, `forged
      ensures Valid() && alive == old(alive)[t := false] && blank == old(blank)
      ensures Tables() == old(Tables())[t := NO_TABLE] && issued == old(issued) && forged == old(forged)
      ensures withdrawn == old(withdrawn) + GrantedTo(old(Tables())[t])
    {
      hide Caps, GrantedIn, Sum, Ledger;
      ghost var ts := Tables();
      alive := alive[t := false];
      assert Tables() == ts[t := NO_TABLE];
      NoneGranted();
      OneChanges(ts, Tables(), t, GrantedTo(ts[t]), multiset{});
      Enter(ts, GrantedTo(ts[t]), multiset{}, multiset{});
    }

    /** Only task `t` has changed. */
    twostate lemma {:induction false} OnlyTask(t: nat)
      requires old(Apart()) && spaces == old(spaces) && alive == old(alive) && Lives(t) && spaces[t].Valid()
      requires forall i :: 0 <= i < |spaces| && i != t ==> unchanged(spaces[i])
      ensures SpacesOk(spaces, alive)
      ensures Tables() == old(Tables())[t := Table(spaces[t].slots, spaces[t].bitmap)]
    {
    }

    /** cspace_alloc_slot in task `t`. */
    method Alloc(t: nat, kind: nat, rights: nat, id: nat, memory: Memory) returns (slot: int)
      requires Valid() && Lives(t) && Sized(memory)
      modifies spaces[t], `blank, `withdrawn, `issued, `forged
      ensures Valid() && blank == (old(blank) && Blank(memory))
      ensures slot == -1 <==> Starved(old(spaces[t].bitmap), memory)
      ensures slot == -1 ==> Tables() == old(Tables())
      ensures Tables() == old(Tables())[t := Tables()[t]]
      ensures issued == old(issued) + (if slot == -1 then multiset{} else multiset{Slot(id, kind, rights, true)})
      ensures withdrawn == old(withdrawn) && forged == old(forged)
    {
      hide GrantedTo, Sum, Ledger, Marked, Starved, Blank, AllExact, SpacesOk, PortsOk, TablesOf;
      ghost var ts := Tables();
      slot := AllocIn(t, kind, rights, id, memory);
      ghost var more := if slot == -1 then multiset{} else multiset{Slot(id, kind, rights, true)};
      TableStep(ts, Tables(), t, multiset{}, more);
      blank := blank && Blank(memory);
      Enter(ts, multiset{}, more, multiset{});
    }

    method AllocIn(t: nat, kind: nat, rights: nat, id: nat, memory: Memory) returns (slot: int)
      requires Apart() && Lives(t) && Sized(memory)
      modifies spaces[t]
      ensures Apart() && (slot == -1 <==> Starved(old(spaces[t].bitmap), memory))
      ensures slot == -1 ==> Tables() == old(Tables())
      ensures var more := if slot == -1 then multiset{} else multiset{Slot(id, kind, rights, true)};
        TableChange(old(Tables()), Tables(), t, multiset{}, more)
      ensures Blank(memory) ==> TableExact(old(Tables()), Tables(), t)
    {
      hide Caps, GrantedIn, GrantedTo, Sound, Marked, Bit, Starved, Blank, KeptGranted;
      hide PortsOk, OnlyStray, GrownTable, Stray;
      GrantedToIs(spaces[t].slots, spaces[t].bitmap);
      slot := spaces[t].AllocSlot(kind, rights, id, memory);
      GrantedToIs(spaces[t].slots, spaces[t].bitmap);
      OnlyTask(t);
    }

    /** cspace_free_slot in task `t`. */
    method Free(t: nat, slot: int) returns (ok: bool)
      requires Valid() && Lives(t)
      modifies spaces[t], `withdrawn, `issued, `forged
      ensures Valid() && blank == old(blank) && issued == old(issued) && forged == old(forged)
      ensures ok <==> 0 <= slot < |old(spaces[t].slots)| && old(spaces[t].slots)[slot].inUse
      ensures Tables() == old(Tables())[t := Tables()[t]] && (!ok ==> Tables() == old(Tables()))
      ensures withdrawn == old(withdrawn) + Freed(old(spaces[t].slots), old(spaces[t].bitmap), slot)
    {
      hide GrantedTo, Sum, Ledger, Marked, AllExact, SpacesOk, PortsOk, TablesOf, Freed;
      ghost var ts, less := Tables(), Freed(spaces[t].slots, spaces[t].bitmap, slot);
      ok := FreeIn(t, slot);
      TableStep(ts, Tables(), t, less, multiset{});
      Enter(ts, less, multiset{}, multiset{});
    }

    method FreeIn(t: nat, slot: int) returns (ok: bool)
      requires Apart() && Lives(t)
      modifies spaces[t]
      ensures Apart() && (ok <==> 0 <= slot < |old(spaces[t].slots)| && old(spaces[t].slots)[slot].inUse)
      ensures !ok ==> Tables() == old(Tables())
      ensures TableChange(old(Tables()), Tables(), t, Freed(old(spaces[t].slots), old(spaces[t].bitmap), slot),
                          multiset{})
      ensures TableExact(old(Tables()), Tables(), t)
    {
      hide Caps, GrantedIn, GrantedTo, Marked, PortsOk, OnlyStray;
      ghost var slots, bitmap := spaces[t].slots, spaces[t].bitmap;
      GrantedToIs(slots, bitmap);
      ok := spaces[t].FreeSlot(slot);
      GrantedToIs(spaces[t].slots, spaces[t].bitmap);
      if ok {
        FreedIs(slots, bitmap, slot);
      }
      OnlyTask(t);
    }

    /** port_create. */
    method NewPort(empty: Message) returns (p: nat)
      requires Valid() && Formed(empty)
      modifies `ports
      ensures Valid() && p + 1 == |ports| && ports[..p] == old(ports) && ports[p].Contents() == []
      ensures Tables() == old(Tables())
    {
      hide Sum, Ledger, SpacesOk, TablesOf, AllExact;
      p := |ports|;
      var port := new IpcPort(empty);
      ports := ports + [port];
    }

    /** port_send by task `t`, or by the kernel. */
    method Send(p: nat, m: Message, t: nat, canAlloc: bool) returns (r: SendResult)
      requires Valid() && p < |ports| && Formed(m) && (t == 0 || Lives(t))
      modifies ports[p]
      ensures Valid() && Tables() == old(Tables())
      ensures r.Sent? ==> ports[p].Contents() == old(ports[p].Contents()) + [Item(Carried(m), t)]
      ensures !r.Sent? ==> ports[p].Contents() == old(ports[p].Contents())
    {
      hide Sum, Ledger, TablesOf, AllExact;
      var sender := if t == 0 then None else Some(Sender(t, spaces[t]));
      r := ports[p].Send(m, sender, canAlloc);
    }

    /**
     port_recv by task `t`.  What all tasks were granted together stays the same but for what is
     forged: nothing, if all memory that tables grew into looked unused.
     */
    method Recv(p: nat, t: nat, memory: Memory) returns (r: RecvResult, ghost made: multiset<Slot>)
      requires Valid() && p < |ports| && Lives(t) && Sized(memory)
      requires ports[p].Contents() != [] && ports[p].Contents()[0].sender == t ==>
        NoneHeld(ports[p].Contents()[0].packet.disposals, t, spaces[t].slots)
      modifies ports[p], spaces, `blank, `withdrawn, `issued, `forged
      ensures Valid() && blank == (old(blank) && Blank(memory)) && (blank ==> made == multiset{})
      ensures Sum(Tables()) == old(Sum(Tables())) + made
      ensures issued == old(issued) && withdrawn == old(withdrawn) && forged == old(forged) + made
      ensures r.Received? <==> old(ports[p].Contents()) != []
      ensures r.Received? ==> old(ports[p].Contents()) == [r.item] + ports[p].Contents()
      ensures r.Notified? <==> old(ports[p].Contents()) == [] && old(ports[p].notified)
      ensures ports[p].notified == (old(ports[p].notified) && r.Received?)
      ensures SameBut(old(Tables()), Tables(), t, r)
    {
      hide Caps, GrantedIn, GrantedTo, Sum, Ledger, Sound, Marked, Bit, Starved, Blank, AllExact, Conserved, KeptExact;
      hide PortsOk, SpacesOk, SameBut, TablesOf;
      ghost var ts := Tables();
      HasTable(t);
      r, made := Receive(p, t, memory);
      ReceivedSum(ts, Tables(), t, r, made);
      blank := blank && Blank(memory);
      if blank {
        ReceivedExact(ts, Tables(), t, r, made);
      }
      Enter(ts, multiset{}, multiset{}, made);
    }

    /** The call on the port, in terms of the tables. */
    method Receive(p: nat, t: nat, memory: Memory) returns (r: RecvResult, ghost made: multiset<Slot>)
      requires Apart() && p < |ports| && Lives(t) && Sized(memory)
      requires ports[p].Contents() != [] && ports[p].Contents()[0].sender == t ==>
        NoneHeld(ports[p].Contents()[0].packet.disposals, t, spaces[t].slots)
      modifies ports[p], spaces
      ensures Apart()
      ensures r.Received? <==> old(ports[p].Contents()) != []
      ensures r.Received? ==> old(ports[p].Contents()) == [r.item] + ports[p].Contents()
      ensures r.Notified? <==> old(ports[p].Contents()) == [] && old(ports[p].notified)
      ensures ports[p].notified == (old(ports[p].notified) && r.Received?)
      ensures SameBut(old(Tables()), Tables(), t, r) && Conserved(old(Tables()), Tables(), t, r, made)
      ensures Blank(memory) ==> KeptExact(old(Tables()), Tables(), t, r, made)
    {
      hide Caps, GrantedIn, GrantedTo, Sound, Marked, Bit, Starved, Blank, Delivered, KeptGranted, TablesOf, SpacesOk;
      hide Conserved, KeptExact, SameBut, NoneHeld, PortsOk;
      ghost var c;
      r, c := Call(p, t, memory);
      made := c.made;
      if From(r) {
        MakesNothing(c);
      }
      ChangesOnly(c);
      ChangesBoth(c);
      if Blank(memory) {
        ChangesExact(c);
      }
    }

    /** The call on the port, in terms of the spaces. */
    method Call(p: nat, t: nat, memory: Memory) returns (r: RecvResult, ghost c: Receipt)
      requires Apart() && p < |ports| && Lives(t) && Sized(memory)
      requires ports[p].Contents() != [] && ports[p].Contents()[0].sender == t ==>
        NoneHeld(ports[p].Contents()[0].packet.disposals, t, spaces[t].slots)
      modifies ports[p], spaces
      ensures Apart() && c.t == t && c.r == r && Since() && Outcome(c)
      ensures r.Received? <==> old(ports[p].Contents()) != []
      ensures r.Received? ==> old(ports[p].Contents()) == [r.item] + ports[p].Contents()
      ensures r.Notified? <==> old(ports[p].Contents()) == [] && old(ports[p].notified)
      ensures ports[p].notified == (old(ports[p].notified) && r.Received?)
      ensures From(r) && r.item.sender == t ==> NoneHeld(r.item.packet.disposals, t, old(spaces[t].slots))
      ensures Blank(memory) && old(spaces[t].Exact()) ==> spaces[t].Exact()
    {
      hide Caps, GrantedIn, Sound, Marked, Bit, Starved, Blank, Delivered, KeptGranted, NoneHeld;
      var tasks := TaskMap(spaces, alive);
      ghost var made;
      r, made := ports[p].Recv(spaces[t], tasks, memory);
      assert FromTask(r, tasks) <==> From(r);
      assert forall i :: 0 <= i < |spaces| && alive[i] ==> i in tasks;
      c := Receipt(t, r, made, Starved(spaces[t].bitmap, memory));
    }

    /** What port_recv says of the spaces. */
    twostate predicate Outcome(c: Receipt)
      requires Since()
      reads `spaces, `alive, spaces
    {
      && Living(alive, c.t)
      && (forall i :: 0 <= i < |spaces| && alive[i] && i != c.t && !(From(c.r) && i == c.r.item.sender) ==>
            spaces[i].slots == old(spaces[i].slots) && spaces[i].bitmap == old(spaces[i].bitmap))
      && var receiver := spaces[c.t];
      if From(c.r) then
        var sender := spaces[c.r.item.sender];
        && Delivered(c.r.item.packet.disposals, c.r.item.sender, old(sender.slots), old(sender.bitmap), sender.slots,
                     c.starved, c.made)
        && sender.Granted() + receiver.Granted() == old(sender.Granted() + receiver.Granted()) + c.made
        && (old(sender.Exact()) ==> sender.Exact())
      else
        c.made == multiset{} && receiver.slots == old(receiver.slots) && receiver.bitmap == old(receiver.bitmap)
    }

    lemma {:induction false} HasTable(t: nat)
      requires SpacesOk(spaces, alive) && Lives(t)
      ensures t < |Tables()| && Tables()[t] != NO_TABLE
    {
    }

    /** The message comes from a task that exists. */
    ghost predicate From(r: RecvResult)
      reads `alive
    {
      r.Received? && Living(alive, r.item.sender)
    }

    /** The same tasks, with tables that are sound before and after. */
    twostate predicate Since()
      reads `spaces, `alive, spaces
    {
      old(SpacesOk(spaces, alive)) && SpacesOk(spaces, alive) && spaces == old(spaces) && alive == old(alive)
    }

    /** Nothing is made of what a task disposes of if it holds none of it, or if its table is exact. */
    twostate lemma {:induction false} MakesNothing(c: Receipt)
      requires Since() && Outcome(c) && From(c.r)
      ensures var s := spaces[c.r.item.sender];
        NoneHeld(c.r.item.packet.disposals, c.r.item.sender, old(s.slots)) || old(s.Exact()) ==> c.made == multiset{}
    {
      hide Marked, NoneHeld, Delivered, Sound, GrantedIn;
      var s := spaces[c.r.item.sender];
      NothingMade(c.r.item.packet.disposals, c.r.item.sender, old(s.slots), old(s.bitmap), s.slots, c.starved, c.made);
    }

    /** After a receive only the tables of the receiver and of the sender differ. */
    twostate lemma {:induction false} ChangesOnly(c: Receipt)
      requires Since() && Outcome(c)
      ensures Brings(old(Tables()), c.r) <==> From(c.r)
      ensures SameBut(old(Tables()), Tables(), c.t, c.r)
    {
      hide Sound, Delivered, GrantedIn, Marked;
    }

    /** And what these hold. */
    twostate lemma {:induction false} ChangesBoth(c: Receipt)
      requires Since() && Outcome(c) && (Brings(old(Tables()), c.r) <==> From(c.r))
      requires From(c.r) && c.r.item.sender == c.t ==> c.made == multiset{}
      ensures Conserved(old(Tables()), Tables(), c.t, c.r, c.made)
    {
      hide GrantedTo, GrantedIn, Sound, Brings, Delivered, Marked;
      var receiver := spaces[c.t];
      GrantedToIs(receiver.slots, receiver.bitmap);
      GrantedToIs(old(receiver.slots), old(receiver.bitmap));
      if From(c.r) {
        var sender := spaces[c.r.item.sender];
        GrantedToIs(sender.slots, sender.bitmap);
        GrantedToIs(old(sender.slots), old(sender.bitmap));
      }
    }

    twostate lemma {:induction false} ChangesExact(c: Receipt)
      requires Since() && Outcome(c) && (Brings(old(Tables()), c.r) <==> From(c.r))
      requires old(spaces[c.t].Exact()) ==> spaces[c.t].Exact()
      requires From(c.r) && old(spaces[c.r.item.sender].Exact()) ==> c.made == multiset{}
      ensures KeptExact(old(Tables()), Tables(), c.t, c.r, c.made)
    {
      hide Marked, Sound, Brings, Delivered, GrantedIn;
    }
  }

  /** A receive by task `t`: its result, what was made, and whether it ended short of slots. */
  datatype Receipt = Receipt(t: nat, r: RecvResult, made: multiset<Slot>, starved: bool)

  lemma {:induction false} NothingMade(ds: seq<Disposal>, id: nat, slots: seq<Slot>, bitmap: seq<Word>,
                                       slots': seq<Slot>, starved: bool, made: multiset<Slot>)
    requires Delivered(ds, id, slots, bitmap, slots', starved, made)
    ensures NoneHeld(ds, id, slots) || Marked(slots, bitmap) ==> made == multiset{}
  {
    if NoneHeld(ds, id, slots) {
      assert forall d :: d in ds ==> !HoldsIn(d, id, slots);
    }
  }

  lemma {:induction false} GrantedToIs(slots: seq<Slot>, bitmap: seq<Word>)
    requires Sound(slots, bitmap)
    ensures |slots| <= WORD_BITS * |bitmap| && GrantedTo(Table(slots, bitmap)) == GrantedIn(slots, bitmap)
  {
  }

  /** The record that freeing a slot withdraws: none if the slot is not in use, or not marked. */
  ghost function Freed(slots: seq<Slot>, bitmap: seq<Word>, slot: int): multiset<Slot> {
    if 0 <= slot < |slots| && slots[slot].inUse && !Stray(slots, bitmap, slot) then multiset{slots[slot]}
    else multiset{}
  }

  lemma {:induction false} FreedIs(slots: seq<Slot>, bitmap: seq<Word>, slot: nat)
    requires Sound(slots, bitmap) && slot < |slots| && slots[slot].inUse
    ensures Freed(slots, bitmap, slot) == (if Bit(bitmap, slot) then multiset{slots[slot]} else multiset{})
    ensures Freed(slots, bitmap, slot) <= GrantedIn(slots, bitmap)
    ensures Marked(slots, bitmap) ==> OnlyStray(slots, bitmap, slot)
  {
    hide Caps, GrantedIn;
    if Bit(bitmap, slot) {
      MarkedGranted(slots, bitmap, slot);
    }
  }

  /** Table `k` alone has changed: it lost the records `less` and gained the records `more`. */
  ghost predicate TableChange(ts: seq<Table>, us: seq<Table>, k: nat, less: multiset<Slot>, more: multiset<Slot>) {
    && k < |ts| == |us| && us == ts[k := us[k]] && us[k] != NO_TABLE && ts[k] != NO_TABLE
    && GrantedTo(us[k]) + less == GrantedTo(ts[k]) + more
  }

  ghost predicate TableExact(ts: seq<Table>, us: seq<Table>, k: nat)
    requires k < |ts| == |us|
  {
    Marked(ts[k].slots, ts[k].bitmap) ==> Marked(us[k].slots, us[k].bitmap)
  }

  lemma {:induction false} TableStep(ts: seq<Table>, us: seq<Table>, k: nat, less: multiset<Slot>, more: multiset<Slot>)
    requires TableChange(ts, us, k, less, more)
    ensures Sum(us) + less == Sum(ts) + more
    ensures AllExact(ts) && TableExact(ts, us, k) ==> AllExact(us)
  {
    hide GrantedTo, Sum, Marked;
    OneChanges(ts, us, k, less, more);
  }

  /** The task whose capabilities a message brings, if it is alive and not the kernel. */
  ghost predicate Brings(ts: seq<Table>, r: RecvResult) {
    r.Received? && r.item.sender < |ts| && ts[r.item.sender] != NO_TABLE
  }

  /** Only the receiver `t` and the sender have changed. */
  ghost predicate SameBut(ts: seq<Table>, us: seq<Table>, t: nat, r: RecvResult) {
    && |us| == |ts|
    && forall i :: 0 <= i < |ts| && i != t && !(Brings(ts, r) && i == r.item.sender) ==> us[i] == ts[i]
  }

  /** Their records together are what they were, and what was made. */
  ghost predicate Conserved(ts: seq<Table>, us: seq<Table>, t: nat, r: RecvResult, made: multiset<Slot>)
    requires t < |ts| == |us|
  {
    if Brings(ts, r) then
      var s := r.item.sender;
      && GrantedTo(us[s]) + GrantedTo(us[t]) == GrantedTo(ts[s]) + GrantedTo(ts[t]) + made
      && (s == t ==> made == multiset{})
    else us[t] == ts[t] && made == multiset{}
  }

  ghost predicate KeptExact(ts: seq<Table>, us: seq<Table>, t: nat, r: RecvResult, made: multiset<Slot>)
    requires t < |ts| == |us|
  {
    && (Marked(ts[t].slots, ts[t].bitmap) ==> Marked(us[t].slots, us[t].bitmap))
    && (Brings(ts, r) ==>
          var s := r.item.sender;
          Marked(ts[s].slots, ts[s].bitmap) ==> Marked(us[s].slots, us[s].bitmap) && made == multiset{})
  }

  lemma {:induction false} ReceivedSum(ts: seq<Table>, us: seq<Table>, t: nat, r: RecvResult, made: multiset<Slot>)
    requires t < |ts| && SameBut(ts, us, t, r) && Conserved(ts, us, t, r, made)
    ensures Sum(us) == Sum(ts) + made
  {
    hide Sum, GrantedTo;
    if Brings(ts, r) && r.item.sender != t {
      assert us == ts[r.item.sender := us[r.item.sender]][t := us[t]];
      TwoChange(ts, us, r.item.sender, t, made);
    } else {
      assert us == ts[t := us[t]];
      if Brings(ts, r) {
        Halves(GrantedTo(us[t]), GrantedTo(ts[t]));
      }
      OneChanges(ts, us, t, multiset{}, multiset{});
    }
  }

  lemma {:induction false} Halves(a: multiset<Slot>, b: multiset<Slot>)
    requires a + a == b + b
    ensures a == b
  {
    forall s
      ensures a[s] == b[s]
    {
      assert (a + a)[s] == (b + b)[s];
    }
  }

  lemma {:induction false} ReceivedExact(ts: seq<Table>, us: seq<Table>, t: nat, r: RecvResult, made: multiset<Slot>)
    requires t < |ts| && SameBut(ts, us, t, r) && ts[t] != NO_TABLE && AllExact(ts)
    requires Conserved(ts, us, t, r, made) && KeptExact(ts, us, t, r, made)
    ensures AllExact(us) && made == multiset{}
  {
    hide Marked, GrantedTo;
  }

  lemma {:induction false} NoneGranted()
    ensures GrantedTo(NO_TABLE) == multiset{}
  {
    NoRecords(Masked([], [], true));
  }
}
