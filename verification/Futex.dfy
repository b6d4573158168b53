/**
 Futex queues.  Each method is one section of futex_wait, futex_wake or futex_requeue run under
 the global futex lock (or, for the unlink after a sleep, under the wait queue's lock), so that
 every interleaving of processes is some sequence of these calls.
 */
module Futex {

  import opened Lists

  const BUCKETS := 64

  datatype Option<+T> = None | Some(value: T)

  /** futex_q_t: its key, the linked waiters from the head on, and the count of its processes. */
  datatype Queue = Queue(mm: nat, addr: nat, list: seq<int>, nwaiters: int)

  /**
   A process: the queue its futex_q names, the queue it went to sleep on while inside
   futex_wait, and whether since then it has been woken or has woken by itself.
   */
  datatype Proc = Proc(queue: Option<int>, asleep: Option<int>, woken: bool)

  type Queues = map<int, Queue>
  type Procs = map<int, Proc>
  type Chains = seq<seq<int>>

  function Hash(addr: nat): (h: nat)
    ensures h < BUCKETS
  {
    addr / 4 % BUCKETS
  }

  predicate SameKey(a: Queue, mm: nat, addr: nat) {
    a.mm == mm && a.addr == addr
  }

  /** The processes whose futex_q names queue `q`. */
  ghost function Naming(procs: Procs, q: int): set<int> {
    set p | p in procs && procs[p].queue == Some(q)
  }

  /** A chain holds existing queues of its hash, at most one per key. */
  ghost predicate ChainOk(chain: seq<int>, h: nat, queues: Queues) {
    && NoDuplicates(chain)
    && (forall q :: q in chain ==> q in queues && Hash(queues[q].addr) == h)
    && (forall q, r :: q in chain && r in chain && q != r ==> !SameKey(queues[q], queues[r].mm, queues[r].addr))
  }

  ghost predicate ChainsOk(chains: Chains, queues: Queues) {
    |chains| == BUCKETS && forall h :: 0 <= h < BUCKETS ==> ChainOk(chains[h], h, queues)
  }

  ghost predicate QueueOk(q: int, queue: Queue, procs: Procs, chains: Chains)
    requires |chains| == BUCKETS
  {
    && queue.nwaiters == |Naming(procs, q)|
    && (queue.nwaiters > 0 ==> q in chains[Hash(queue.addr)])
    && (forall p :: p in queue.list ==> p in Naming(procs, q))
    && NoDuplicates(queue.list)
  }

  ghost predicate ProcOk(proc: Proc, queues: Queues) {
    && (proc.queue.Some? ==> proc.queue.value in queues && proc.asleep.Some?)
    && (proc.asleep.Some? ==> proc.asleep.value in queues)
  }

  ghost predicate Inv(queues: Queues, chains: Chains, procs: Procs) {
    && ChainsOk(chains, queues)
    && (forall q :: q in queues ==> QueueOk(q, queues[q], procs, chains))
    && (forall p :: p in procs ==> ProcOk(procs[p], queues))
  }

  /** The chain of the address has a queue with this key. */
  ghost predicate Keyed(queues: Queues, chains: Chains, mm: nat, addr: nat) {
    |chains| == BUCKETS && exists q :: q in chains[Hash(addr)] && q in queues && SameKey(queues[q], mm, addr)
  }

  /** A queue with processes is the one its key finds. */
  ghost predicate FoundBy(queues: Queues, chain: seq<int>, mm: nat, addr: nat, q: int) {
    q in chain && q in queues && SameKey(queues[q], mm, addr) &&
    forall r :: r in chain && r in queues && SameKey(queues[r], mm, addr) ==> r == q
  }

  lemma {:induction false} WaitersAreFound(queues: Queues, chains: Chains, procs: Procs, p: int)
    requires Inv(queues, chains, procs) && p in procs && procs[p].queue.Some?
    ensures var q := procs[p].queue.value;
      q in queues && FoundBy(queues, chains[Hash(queues[q].addr)], queues[q].mm, queues[q].addr, q)
  {
    var q := procs[p].queue.value;
    var queue := queues[q];
    assert QueueOk(q, queue, procs, chains);
    assert p in Naming(procs, q);
    assert ChainOk(chains[Hash(queue.addr)], Hash(queue.addr), queues);
  }

  /** Every process still waiting for a wake is linked where a wake will find it. */
  ghost predicate NoneLost(queues: Queues, procs: Procs) {
    forall p :: p in procs ==> Reached(p, procs[p], queues)
  }

  ghost predicate Reached(p: int, proc: Proc, queues: Queues) {
    proc.queue.Some? && !proc.woken ==> proc.queue.value in queues && p in queues[proc.queue.value].list
  }

  /** A process that waits no longer may leave a list. */
  lemma {:induction false} ReachedKept(queues: Queues, procs: Procs, p: int, proc: Proc, q: int, queue: Queue)
    requires NoneLost(queues, procs) && q in queues && p in procs && (proc.queue.None? || proc.woken)
    requires forall x :: x in queues[q].list && x != p ==> x in queue.list
    ensures NoneLost(queues[q := queue], procs[p := proc])
  {
    forall x | x in procs
      ensures Reached(x, procs[p := proc][x], queues[q := queue])
    {
      assert Reached(x, procs[x], queues);
    }
  }

  /** Changing the queue one process names moves it between the two sets and touches no other. */
  lemma {:induction false} Renamed(procs: Procs, p: int, proc: Proc, q: int)
    requires p in procs
    ensures Naming(procs[p := proc], q) ==
      if proc.queue == Some(q) then Naming(procs, q) + {p} else Naming(procs, q) - {p}
  {
  }

  /** The processes after those in `ps` were woken by futex_wake. */
  ghost function Flagged(procs: Procs, ps: seq<int>): Procs {
    map p | p in procs :: if p in ps then procs[p].(woken := true) else procs[p]
  }

  /** The processes after futex_requeue woke those in `woken` and moved those in `moved` to `q`. */
  ghost function Requeued(procs: Procs, woken: seq<int>, moved: seq<int>, q: int): Procs {
    map p | p in procs ::
      if p in woken then Proc(None, procs[p].asleep, true)
      else if p in moved then procs[p].(queue := Some(q))
      else procs[p]
  }

  lemma {:induction false} NothingRequeued(procs: Procs, q: int)
    ensures Requeued(procs, [], [], q) == procs
  {
  }

  lemma {:induction false} RequeuedWoken(procs: Procs, woken: seq<int>, q: int, p: int)
    requires p in procs && p !in woken
    ensures p in Requeued(procs, woken, [], q) && Requeued(procs, woken, [], q)[p] == procs[p]
    ensures Requeued(procs, woken, [], q)[p := Proc(None, procs[p].asleep, true)] == Requeued(procs, woken + [p], [], q)
  {
  }

  lemma {:induction false} RequeuedMoved(procs: Procs, woken: seq<int>, moved: seq<int>, q: int, p: int)
    requires p in procs && p !in woken && p !in moved
    ensures p in Requeued(procs, woken, moved, q) && Requeued(procs, woken, moved, q)[p] == procs[p]
    ensures Requeued(procs, woken, moved, q)[p := procs[p].(queue := Some(q))] == Requeued(procs, woken, moved + [p], q)
  {
  }

  function Min(a: int, b: int): int {
    if a < b then a else b
  }

  /** A requeue that empties the list of `q` loses exactly those linked there who were still waiting. */
  lemma {:induction false} LostIff(queues: Queues, chains: Chains, procs: Procs, queues': Queues, q1: int, q2: int,
                                   a: nat, b: nat)
    requires Inv(queues, chains, procs) && q1 in queues && q2 in queues && q1 != q2
    requires a + b <= |queues[q1].list| && queues'.Keys == queues.Keys
    requires forall x :: x in queues && x != q1 && x != q2 ==> queues'[x] == queues[x]
    requires queues'[q1].list == queues[q1].list[a + b..]
    requires queues'[q2].list == queues[q1].list[a..a + b]
    ensures var l := queues[q1].list;
      NoneLost(queues', Requeued(procs, l[..a], l[a..a + b], q2)) <==>
      NoneLost(queues, procs) && forall p :: p in queues[q2].list ==> procs[p].woken
  {
    var l := queues[q1].list;
    var procs' := Requeued(procs, l[..a], l[a..a + b], q2);
    LinkedNames(queues, chains, procs, q1);
    LinkedNames(queues, chains, procs, q2);
    assert l == l[..a] + l[a..a + b] + l[a + b..];
    forall p | p in procs
      ensures Reached(p, procs'[p], queues') <==>
        Reached(p, procs[p], queues) && (p in queues[q2].list ==> procs[p].woken)
    {
      if procs[p].queue == Some(q1) {
        assert p in l ==> p in l[..a] || p in l[a..a + b] || p in l[a + b..];
        assert p in queues'[q1].list ==> p in l;
      }
    }
    if NoneLost(queues', procs') {
      forall p | p in procs
        ensures Reached(p, procs[p], queues) && (p in queues[q2].list ==> procs[p].woken)
      {
        assert Reached(p, procs'[p], queues');
      }
    }
  }

  /**
   What a requeue does: the first waiters of the first queue are woken, the next ones become, in
   order, the whole list of the second queue, and the rest stay.  Waiters linked on the second
   queue before are dropped: nobody is lost exactly when none of those was still waiting.
   */
  ghost predicate RequeueDone(queues: Queues, procs: Procs, queues': Queues, procs': Procs, mm: nat, addr1: nat,
                              addr2: nat, nwake: int, nmove: int, q1: int, q2: int, woken: nat)
  {
    && q1 in queues && q1 in queues' && q2 in queues' && q1 != q2
    && SameKey(queues'[q1], mm, addr1) && SameKey(queues'[q2], mm, addr2)
    && (forall x :: x in queues && x != q1 && x != q2 ==> x in queues' && queues'[x] == queues[x])
    && var l := queues[q1].list;
    && nmove >= 0 && woken == Min(nwake, |l|)
    && var end := woken + Min(nmove, |l| - woken);
    && queues'[q1].list == l[end..] && queues'[q2].list == l[woken..end]
    && procs' == Requeued(procs, l[..woken], l[woken..end], q2)
    && (NoneLost(queues', procs') <==>
        NoneLost(queues, procs) && (q2 in queues ==> forall p :: p in queues[q2].list && p in procs ==> procs[p].woken))
  }

  /** The state of a requeue that has woken and moved so many: q2's own list goes with the first move. */
  ghost predicate Midway(queues: Queues, procs: Procs, queues': Queues, procs': Procs, q1: int, q2: int, woken: nat,
                         moved: nat) {
    && q1 in queues && q2 in queues && q1 != q2 && queues'.Keys == queues.Keys
    && SameKey(queues'[q1], queues[q1].mm, queues[q1].addr) && SameKey(queues'[q2], queues[q2].mm, queues[q2].addr)
    && (forall x :: x in queues && x != q1 && x != q2 ==> queues'[x] == queues[x])
    && var l := queues[q1].list;
    && woken + moved <= |l| && NoDuplicates(l) && (forall p :: p in l ==> p in procs)
    && queues'[q1].list == l[woken + moved..]
    && queues'[q2].list == (if moved == 0 then queues[q2].list else l[woken..woken + moved])
    && procs' == Requeued(procs, l[..woken], l[woken..woken + moved], q2)
  }

  lemma {:induction false} Concluded(queues: Queues, queues0: Queues, chains: Chains, procs: Procs, queues': Queues,
                                     procs': Procs, mm: nat, addr1: nat, addr2: nat, nwake: nat, nmove: nat, q1: int,
                                     q2: int, woken: nat, moved: nat)
    requires q1 in queues && (forall x :: x in queues ==> x in queues0 && queues0[x] == queues[x])
    requires q2 in queues0 && (q2 !in queues ==> queues0[q2].list == [])
    requires Inv(queues0, chains, procs) && NoneLost(queues0, procs) == NoneLost(queues, procs)
    requires q1 != q2 && SameKey(queues0[q1], mm, addr1) && SameKey(queues0[q2], mm, addr2)
    requires woken == Min(nwake, |queues[q1].list|) && moved == Min(nmove, |queues[q1].list| - woken)
    requires Midway(queues0[q2 := queues0[q2].(list := [])], procs, queues', procs', q1, q2, woken, moved)
    ensures RequeueDone(queues, procs, queues', procs', mm, addr1, addr2, nwake, nmove, q1, q2, woken)
  {
    hide NoneLost, Inv, Requeued, NoDuplicates;
    LinkedNames(queues0, chains, procs, q2);
    LostIff(queues0, chains, procs, queues', q1, q2, woken, moved);
  }

  datatype RequeueResult = Woke(woken: nat) | OutOfMemory

  datatype WaitResult = Parked(q: int) | NoMemory | Faulted | Again

  lemma {:induction false} KeyKept(chains: Chains, queues: Queues, q: int, queue: Queue)
    requires ChainsOk(chains, queues) && q in queues && SameKey(queue, queues[q].mm, queues[q].addr)
    ensures ChainsOk(chains, queues[q := queue])
  {
    forall h | 0 <= h < BUCKETS
      ensures ChainOk(chains[h], h, queues[q := queue])
    {
      assert ChainOk(chains[h], h, queues);
    }
  }

  lemma {:induction false} NotNamed(q: int, queue: Queue, procs: Procs, chains: Chains, p: int, proc: Proc)
    requires |chains| == BUCKETS && QueueOk(q, queue, procs, chains) && p in procs
    requires procs[p].queue != Some(q) && proc.queue != Some(q)
    ensures QueueOk(q, queue, procs[p := proc], chains)
  {
    Renamed(procs, p, proc, q);
    assert p !in Naming(procs, q);
  }

  /** One queue and one process that names no other queue change together. */
  lemma {:induction false} Update(queues: Queues, chains: Chains, procs: Procs, p: int, proc: Proc, q: int,
                                  queue: Queue)
    requires Inv(queues, chains, procs) && p in procs && q in queues
    requires SameKey(queue, queues[q].mm, queues[q].addr)
    requires procs[p].queue.Some? ==> procs[p].queue == Some(q)
    requires (proc.queue.Some? ==> proc.queue == Some(q)) && ProcOk(proc, queues)
    requires QueueOk(q, queue, procs[p := proc], chains)
    ensures Inv(queues[q := queue], chains, procs[p := proc])
  {
    hide ChainOk, Hash, NoDuplicates;
    var queues', procs' := queues[q := queue], procs[p := proc];
    KeyKept(chains, queues, q, queues'[q]);
    forall x | x in queues'
      ensures QueueOk(x, queues'[x], procs', chains)
    {
      if x != q {
        NotNamed(x, queues[x], procs, chains, p, proc);
      }
    }
  }

  /** A process stops naming queue `q` and is off its list. */
  lemma {:induction false} Leaves(queues: Queues, chains: Chains, procs: Procs, p: int, proc: Proc, q: int,
                                  list: seq<int>)
    requires Inv(queues, chains, procs) && p in procs && q in queues
    requires procs[p].queue == Some(q) && proc.queue.None? && p !in list
    requires proc.asleep.Some? ==> proc.asleep.value in queues
    requires NoDuplicates(list) && forall x :: x in list ==> x in queues[q].list
    ensures queues[q].nwaiters > 0 && |chains| == BUCKETS
    ensures Inv(queues[q := queues[q].(list := list, nwaiters := queues[q].nwaiters - 1)], chains, procs[p := proc])
  {
    assert QueueOk(q, queues[q], procs, chains);
    Renamed(procs, p, proc, q);
    assert p in Naming(procs, q);
    Update(queues, chains, procs, p, proc, q, queues[q].(list := list, nwaiters := queues[q].nwaiters - 1));
  }

  /** A process that named no queue comes to name `q`. */
  lemma {:induction false} Joins(queues: Queues, chains: Chains, procs: Procs, p: int, proc: Proc, q: int,
                                 list: seq<int>)
    requires Inv(queues, chains, procs) && p in procs && q in queues && q in chains[Hash(queues[q].addr)]
    requires procs[p].queue.None? && proc.queue == Some(q) && proc.asleep.Some? && proc.asleep.value in queues
    requires NoDuplicates(list) && forall x :: x in list ==> x == p || x in queues[q].list
    ensures Inv(queues[q := queues[q].(list := list, nwaiters := queues[q].nwaiters + 1)], chains, procs[p := proc])
  {
    assert QueueOk(q, queues[q], procs, chains);
    Renamed(procs, p, proc, q);
    assert p !in Naming(procs, q);
    Update(queues, chains, procs, p, proc, q, queues[q].(list := list, nwaiters := queues[q].nwaiters + 1));
  }

  function MovedQueues(queues: Queues, q1: int, list1: seq<int>, q2: int, list2: seq<int>): Queues
    requires q1 in queues && q2 in queues
  {
    queues[q1 := queues[q1].(list := list1, nwaiters := queues[q1].nwaiters - 1)]
          [q2 := queues[q2].(list := list2, nwaiters := queues[q2].nwaiters + 1)]
  }

  /** A process stops naming `q1` and names `q2` instead. */
  lemma {:induction false} Moves(queues: Queues, chains: Chains, procs: Procs, p: int, q1: int, list1: seq<int>,
                                 q2: int, list2: seq<int>)
    requires Inv(queues, chains, procs) && p in procs && q1 in queues && q2 in queues && q1 != q2
    requires q2 in chains[Hash(queues[q2].addr)] && procs[p].queue == Some(q1) && p !in list1
    requires NoDuplicates(list1) && forall x :: x in list1 ==> x in queues[q1].list
    requires NoDuplicates(list2) && forall x :: x in list2 ==> x == p || x in queues[q2].list
    ensures Inv(MovedQueues(queues, q1, list1, q2, list2), chains, procs[p := procs[p].(queue := Some(q2))])
  {
    assert ProcOk(procs[p], queues);
    var proc := procs[p].(queue := None);
    var queues1 := queues[q1 := queues[q1].(list := list1, nwaiters := queues[q1].nwaiters - 1)];
    assert Inv(queues1, chains, procs[p := proc]) by {
      Leaves(queues, chains, procs, p, proc, q1, list1);
    }
    var queues2 := queues1[q2 := queues[q2].(list := list2, nwaiters := queues[q2].nwaiters + 1)];
    var procs2 := procs[p := procs[p].(queue := Some(q2))];
    assert Inv(queues2, chains, procs2) by {
      hide Inv;
      Joins(queues1, chains, procs[p := proc], p, procs[p].(queue := Some(q2)), q2, list2);
      assert procs[p := proc][p := procs[p].(queue := Some(q2))] == procs2;
    }
  }

  /** A list shrinks while every process goes on naming the queue it named. */
  lemma {:induction false} Shrinks(queues: Queues, chains: Chains, procs: Procs, q: int, list: seq<int>)
    requires Inv(queues, chains, procs) && q in queues
    requires NoDuplicates(list) && forall x :: x in list ==> x in queues[q].list
    ensures Inv(queues[q := queues[q].(list := list)], chains, procs)
  {
    var queues' := queues[q := queues[q].(list := list)];
    KeyKept(chains, queues, q, queues'[q]);
    assert QueueOk(q, queues[q], procs, chains);
  }

  /** A process changes in something other than the queue it names. */
  lemma {:induction false} SameQueue(queues: Queues, chains: Chains, procs: Procs, p: int, proc: Proc)
    requires Inv(queues, chains, procs) && p in procs && proc.queue == procs[p].queue
    requires proc.asleep == procs[p].asleep || proc == Proc(None, None, true)
    ensures Inv(queues, chains, procs[p := proc])
  {
    forall x | x in queues
      ensures QueueOk(x, queues[x], procs[p := proc], chains)
    {
      assert QueueOk(x, queues[x], procs, chains);
      Renamed(procs, p, proc, x);
      assert Naming(procs[p := proc], x) == Naming(procs, x);
    }
  }

  /** Linked processes name the queue that links them, so no process is linked twice. */
  lemma {:induction false} LinkedNames(queues: Queues, chains: Chains, procs: Procs, q: int)
    requires Inv(queues, chains, procs) && q in queues
    ensures NoDuplicates(queues[q].list)
    ensures forall p :: p in queues[q].list ==> p in procs && procs[p].queue == Some(q) && procs[p].asleep.Some?
  {
    assert QueueOk(q, queues[q], procs, chains);
    assert forall p :: p in queues[q].list ==> p in Naming(procs, q);
  }

  /* ---------------- a requeue onto the same address, pointer by pointer ---------------- */

  /** A pointer to a process: the queue's head or the wait_next of a process. */
  datatype Place = Head | NextOf(p: int)

  /** The list that starts at `head`. */
  ghost predicate Chain(head: Option<int>, next: map<int, Option<int>>, list: seq<int>)
    decreases |list|
  {
    if list == [] then head.None?
    else head == Some(list[0]) && list[0] in next && Chain(next[list[0]], next, list[1..])
  }

  function First(list: seq<int>): Option<int> {
    if list == [] then None else Some(list[0])
  }

  /** The wait_next of every linked process. */
  function Links(list: seq<int>): map<int, Option<int>> {
    if list == [] then map[] else Links(list[1..])[list[0] := First(list[1..])]
  }

  lemma {:induction false} LinksChain(list: seq<int>)
    requires NoDuplicates(list)
    ensures Chain(First(list), Links(list), list)
    ensures forall p :: p in list ==> p in Links(list)
  {
    if list != [] {
      LinksChain(list[1..]);
      assert list[0] !in list[1..];
      ChainApart(First(list[1..]), Links(list[1..]), list[1..], list[0], First(list[1..]));
    }
  }

  lemma {:induction false} ChainApart(head: Option<int>, next: map<int, Option<int>>, list: seq<int>, p: int,
                                      to: Option<int>)
    requires Chain(head, next, list) && p !in list
    ensures Chain(head, next[p := to], list)
    decreases |list|
  {
    if list != [] {
      assert p !in list[1..];
      ChainApart(next[list[0]], next, list[1..], p, to);
    }
  }

  /** How many turns of the loop move a process: the second one finds the one just moved and empties the list. */
  function SelfMoves(rest: seq<int>, nmove: nat): nat {
    if rest == [] then 0 else Min(nmove, 2)
  }

  function SelfList(rest: seq<int>, nmove: nat): seq<int> {
    if rest != [] && nmove == 1 then [rest[0]] else []
  }

  function Clamped(x: int): nat {
    if x < 0 then 0 else x
  }

  /** The pointers with `woken` processes woken and `moved` turns that moved one. */
  ghost predicate Turning(list: seq<int>, woken: nat, moved: nat, head: Option<int>, next: map<int, Option<int>>,
                          pp: Place) {
    && woken <= |list| && moved <= 2
    && (moved == 0 ==> pp == Head && Chain(head, next, list[woken..]))
    && (moved > 0 ==> woken < |list| && pp == NextOf(list[woken]) && list[woken] in next)
    && (moved == 1 ==> head == Some(list[woken]) && next[list[woken]] == None)
    && (moved == 2 ==> head.None?)
  }

  /** One turn: `w` comes off the head, and goes where `pp` points unless it is woken. */
  function Unhooked(next: map<int, Option<int>>, w: int): map<int, Option<int>> {
    next[w := None]
  }

  lemma {:induction false} StartTurning(procs: Procs, q: int, list: seq<int>)
    requires NoDuplicates(list)
    ensures Turning(list, 0, 0, First(list), Links(list), Head) && procs == Requeued(procs, list[..0], [], q)
  {
    LinksChain(list);
    assert list[0..] == list;
  }

  lemma {:induction false} TurnWakes(list: seq<int>, woken: nat, head: Option<int>, next: map<int, Option<int>>,
                                     procs: Procs, q: int)
    requires NoDuplicates(list) && woken < |list| && Turning(list, woken, 0, head, next, Head) && list[woken] in procs
    ensures head == Some(list[woken]) && list[woken] in next
    ensures Turning(list, woken + 1, 0, next[list[woken]], Unhooked(next, list[woken]), Head)
    ensures var p, done := list[woken], Requeued(procs, list[..woken], [], q);
      p in done && done[p := Proc(None, done[p].asleep, true)] == Requeued(procs, list[..woken + 1], [], q)
  {
    var rest, p := list[woken..], list[woken];
    assert rest[0] == p && rest[1..] == list[woken + 1..];
    assert p !in list[woken + 1..];
    ChainApart(next[p], next, list[woken + 1..], p, None);
    assert p !in list[..woken];
    RequeuedWoken(procs, list[..woken], q, p);
    assert list[..woken + 1] == list[..woken] + [p];
  }

  lemma {:induction false} TurnMoves(list: seq<int>, woken: nat, moved: nat, head: Option<int>,
                                     next: map<int, Option<int>>, pp: Place)
    requires Turning(list, woken, moved, head, next, pp) && moved < 2 && woken < |list| && head == Some(list[woken])
    requires list[woken] in next
    ensures var w := list[woken];
      if pp.Head? then Turning(list, woken, moved + 1, Some(w), Unhooked(next, w), NextOf(w))
      else Turning(list, woken, moved + 1, next[w], Unhooked(next, w)[pp.p := Some(w)], NextOf(w))
  {
    hide Chain;
  }

  /** While the loop goes on, the process at the head is the next one, moved at most once before. */
  lemma {:induction false} Heading(list: seq<int>, woken: nat, moved: nat, head: Option<int>,
                                   next: map<int, Option<int>>, pp: Place)
    requires Turning(list, woken, moved, head, next, pp)
    ensures head.Some? ==> moved < 2 && woken < |list| && head == Some(list[woken]) && list[woken] in next
    ensures head.None? && moved == 0 ==> woken == |list|
    ensures moved == 0 ==> pp == Head
  {
    if moved == 0 && woken < |list| {
      assert list[woken..][0] == list[woken];
    }
  }

  /** What the last write through `pp` leaves. */
  lemma {:induction false} LastWrite(list: seq<int>, woken: nat, moved: nat, head: Option<int>,
                                     next: map<int, Option<int>>, pp: Place)
    requires Turning(list, woken, moved, head, next, pp)
    ensures moved <= 2 && woken <= |list| && (pp.Head? <==> moved == 0)
    ensures moved > 0 ==> woken < |list| && pp == NextOf(list[woken])
    ensures moved == 2 ==> head.None?
    ensures moved == 1 ==> head == Some(list[woken])
    ensures moved != 1 ==> forall m :: Chain(None, m, [])
    ensures moved == 1 ==> Chain(head, next[list[woken] := None], [list[woken]])
  {
    if moved == 1 {
      var p := list[woken];
      assert [p][1..] == [];
      assert Chain(None, next[p := None], []);
    }
  }

  /** What a requeue from an address onto itself leaves. */
  ghost predicate SelfRequeued(queues: Queues, procs: Procs, queues': Queues, procs': Procs, q: int, nwake: int,
                               nmove: int, woken: nat)
  {
    && q in queues && nmove >= 0
    && var l := queues[q].list;
    && woken == Min(nwake, |l|)
    && var rest := l[woken..];
    && queues' == queues[q := queues[q].(list := SelfList(rest, nmove),
                                         nwaiters := Clamped(queues[q].nwaiters - woken - SelfMoves(rest, nmove)))]
    && procs' == Requeued(procs, l[..woken], [], q)
  }

  lemma {:induction false} SelfEnds(queues: Queues, procs: Procs, queues': Queues, procs': Procs, q: int, nwake: nat,
                                    nmove: nat, woken: nat, moved: nat, list: seq<int>, n: nat)
    requires q in queues && moved <= 2 && woken <= |queues[q].list| && woken <= nwake && moved <= nmove
    requires moved > 0 ==> woken == nwake < |queues[q].list|
    requires moved == 0 ==> woken == |queues[q].list| || (woken == nwake && nmove == 0)
    requires moved == 1 ==> nmove == 1 && list == [queues[q].list[woken]]
    requires moved != 1 ==> list == []
    requires n == Clamped(queues[q].nwaiters - woken - moved)
    requires queues' == queues[q := queues[q].(list := list, nwaiters := n)]
    requires procs' == Requeued(procs, queues[q].list[..woken], [], q)
    ensures SelfRequeued(queues, procs, queues', procs', q, nwake, nmove, woken)
  {
    hide Requeued;
    assert |queues[q].list[woken..]| == |queues[q].list| - woken;
  }

  lemma {:induction false} SetSize(list: seq<int>)
    requires NoDuplicates(list)
    ensures |set p | p in list| == |list|
  {
    if list != [] {
      SetSize(list[1..]);
      assert list[0] !in list[1..];
      assert (set p | p in list) == (set p | p in list[1..]) + {list[0]};
    }
  }

  lemma {:induction false} SubsetSize(a: set<int>, b: set<int>)
    requires a <= b
    ensures |a| <= |b| && |b - a| == |b| - |a|
  {
    assert b == a + (b - a);
  }

  lemma {:induction false} CountIsNaming(queues: Queues, chains: Chains, procs: Procs, q: int)
    requires Inv(queues, chains, procs) && q in queues
    ensures queues[q].nwaiters == |Naming(procs, q)|
  {
    assert QueueOk(q, queues[q], procs, chains);
  }

  lemma {:induction false} NamingLess(procs: Procs, gone: seq<int>, q: int)
    requires forall p :: p in gone ==> p in Naming(procs, q)
    ensures Naming(Requeued(procs, gone, [], q), q) == Naming(procs, q) - (set p | p in gone)
    ensures forall x :: x != q ==> Naming(Requeued(procs, gone, [], q), x) == Naming(procs, x)
  {
    var procs' := Requeued(procs, gone, [], q);
    forall x | x != q
      ensures Naming(procs', x) == Naming(procs, x)
    {
      assert forall p :: p in gone ==> procs[p].queue == Some(q) && procs'[p].queue == None;
    }
  }

  lemma {:induction false} CountLess(naming: set<int>, list: seq<int>, woken: nat)
    requires NoDuplicates(list) && woken <= |list| && forall p :: p in list ==> p in naming
    ensures |naming - (set p | p in list[..woken])| == |naming| - woken >= |list| - woken
  {
    SetSize(list);
    SetSize(list[..woken]);
    SubsetSize((set p | p in list), naming);
    SubsetSize((set p | p in list[..woken]), naming);
  }

  /** The count after so many of the list were woken. */
  lemma {:induction false} WokenLeave(queues: Queues, chains: Chains, procs: Procs, q: int, woken: nat)
    requires Inv(queues, chains, procs) && q in queues && woken <= |queues[q].list|
    ensures var l := queues[q].list;
      && |Naming(Requeued(procs, l[..woken], [], q), q)| == queues[q].nwaiters - woken >= |l| - woken
      && forall x :: x in queues && x != q ==> Naming(Requeued(procs, l[..woken], [], q), x) == Naming(procs, x)
  {
    hide Inv, Requeued, NoDuplicates;
    var l := queues[q].list;
    LinkedNames(queues, chains, procs, q);
    CountIsNaming(queues, chains, procs, q);
    CountLess(Naming(procs, q), l, woken);
    NamingLess(procs, l[..woken], q);
  }

  /** The counts stay right if and only if nothing was moved. */
  lemma {:induction false} SelfValidIff(queues: Queues, chains: Chains, procs: Procs, queues': Queues, procs': Procs,
                                        q: int, nwake: nat, nmove: nat, woken: nat)
    requires Inv(queues, chains, procs) && SelfRequeued(queues, procs, queues', procs', q, nwake, nmove, woken)
    ensures Inv(queues', chains, procs') <==> nmove == 0 || nwake >= |queues[q].list|
  {
    hide Hash;
    var l := queues[q].list;
    WokenLeave(queues, chains, procs, q, woken);
    assert |l[woken..]| == |l| - woken;
    if nmove == 0 || woken == |l| {
      KeyKept(chains, queues, q, queues'[q]);
      forall x | x in queues'
        ensures QueueOk(x, queues'[x], procs', chains)
      {
        assert QueueOk(x, queues[x], procs, chains);
      }
      assert forall p :: p in procs' ==> ProcOk(procs[p], queues);
    } else {
      assert !QueueOk(q, queues'[q], procs', chains);
    }
  }

  /** Nobody is lost exactly when all but the one left on the list had been woken before. */
  lemma {:induction false} SelfLostIff(queues: Queues, chains: Chains, procs: Procs, queues': Queues, procs': Procs,
                                       q: int, nwake: nat, nmove: nat, woken: nat)
    requires Inv(queues, chains, procs) && SelfRequeued(queues, procs, queues', procs', q, nwake, nmove, woken)
    requires NoneLost(queues, procs)
    ensures NoneLost(queues', procs') <==> OthersWoken(queues[q].list[woken..], nmove, procs)
  {
    var l := queues[q].list;
    var rest := l[woken..];
    LinkedNames(queues, chains, procs, q);
    assert l == l[..woken] + rest;
    if NoneLost(queues', procs') {
      forall p | p in rest && p !in SelfList(rest, nmove)
        ensures p in procs && procs[p].woken
      {
        assert p in l && p !in l[..woken];
        assert Reached(p, procs'[p], queues');
      }
    } else {
      var p :| p in procs' && !Reached(p, procs'[p], queues');
      assert Reached(p, procs[p], queues);
    }
  }

  lemma {:induction false} SelfDone(queues: Queues, chains: Chains, procs: Procs, queues': Queues, procs': Procs,
                                    q: int, nwake: nat, nmove: nat, woken: nat)
    requires Inv(queues, chains, procs) && SelfRequeued(queues, procs, queues', procs', q, nwake, nmove, woken)
    ensures q in queues && woken <= |queues[q].list|
    ensures Inv(queues', chains, procs') <==> nmove == 0 || nwake >= |queues[q].list|
    ensures NoneLost(queues, procs) ==>
      (NoneLost(queues', procs') <==> OthersWoken(queues[q].list[woken..], nmove, procs))
  {
    hide Inv, NoneLost, OthersWoken;
    SelfValidIff(queues, chains, procs, queues', procs', q, nwake, nmove, woken);
    if NoneLost(queues, procs) {
      SelfLostIff(queues, chains, procs, queues', procs', q, nwake, nmove, woken);
    }
  }

  ghost predicate OthersWoken(rest: seq<int>, nmove: nat, procs: Procs) {
    forall p :: p in rest && p !in SelfList(rest, nmove) ==> p in procs && procs[p].woken
  }

  /* ---------------- waiters lost, at an input ---------------- */

  /** Processes 1 and 2 wait at 0x1000, process 3 at 0x2000. */
  function Waiting(): Procs {
    map[1 := Proc(Some(10), Some(10), false), 2 := Proc(Some(10), Some(10), false),
        3 := Proc(Some(20), Some(20), false)]
  }

  function WaitingQueues(): Queues {
    map[10 := Queue(7, 0x1000, [1, 2], 2), 20 := Queue(7, 0x2000, [3], 1)]
  }

  function WaitingChains(): Chains {
    seq(BUCKETS, _ => [])[0 := [10, 20]]
  }

  lemma {:induction false} WaitingOk()
    ensures Inv(WaitingQueues(), WaitingChains(), Waiting()) && NoneLost(WaitingQueues(), Waiting())
  {
    var queues, chains, procs := WaitingQueues(), WaitingChains(), Waiting();
    assert Naming(procs, 10) == {1, 2} && Naming(procs, 20) == {3};
    assert Hash(0x1000) == Hash(0x2000) == 0;
    assert ChainOk(chains[0], 0, queues);
    assert forall h :: 0 < h < BUCKETS ==> chains[h] == [];
    assert QueueOk(10, queues[10], procs, chains) && QueueOk(20, queues[20], procs, chains);
  }

  /** Moving one waiter from 0x1000 to 0x2000 loses process 3; from 0x1000 onto itself, process 2 and the count. */
  lemma {:induction false} RequeueLoses(queues: Queues, procs: Procs)
    ensures RequeueDone(WaitingQueues(), Waiting(), queues, procs, 7, 0x1000, 0x2000, 0, 1, 10, 20, 0) ==>
      !NoneLost(queues, procs)
    ensures SelfRequeued(WaitingQueues(), Waiting(), queues, procs, 10, 0, 1, 0) ==>
      !NoneLost(queues, procs) && !Inv(queues, WaitingChains(), procs)
  {
    WaitingOk();
    assert 3 in WaitingQueues()[20].list;
    if SelfRequeued(WaitingQueues(), Waiting(), queues, procs, 10, 0, 1, 0) {
      SelfDone(WaitingQueues(), WaitingChains(), Waiting(), queues, procs, 10, 0, 1, 0);
      var rest := WaitingQueues()[10].list[0..];
      assert rest == [1, 2] && 2 in rest && 2 !in SelfList(rest, 1);
    }
  }

  class FutexTable {
    var queues: Queues
    var chains: Chains
    var procs: Procs

    ghost predicate Valid()
      reads this
    {
      Inv(queues, chains, procs)
    }

    ghost predicate OnNoList(p: int)
      reads this
    {
      forall q :: q in queues ==> p !in queues[q].list
    }

    constructor (procs: Procs)
      requires forall p :: p in procs ==> procs[p].queue.None? && procs[p].asleep.None?
      ensures Valid() && this.procs == procs
    {
      queues, chains, this.procs := map[], seq(BUCKETS, _ => []), procs;
    }

    /** The search of futex_find_q. */
    method Find(mm: nat, addr: nat) returns (q: Option<int>)
      requires Valid()
      ensures q.Some? ==> FoundBy(queues, chains[Hash(addr)], mm, addr, q.value)
      ensures q.Some? <==> Keyed(queues, chains, mm, addr)
      ensures q.None? ==> forall r :: r in chains[Hash(addr)] ==> !SameKey(queues[r], mm, addr)
    {
      var chain := chains[Hash(addr)];
      assert ChainOk(chain, Hash(addr), queues);
      assert forall j :: 0 <= j < |chain| ==> chain[j] in chain && chain[j] in queues;
      for i := 0 to |chain|
        invariant forall j :: 0 <= j < i ==> !SameKey(queues[chain[j]], mm, addr)
      {
        if SameKey(queues[chain[i]], mm, addr) {
          return Some(chain[i]);
        }
      }
      return None;
    }

    /** futex_find_q with create: `room` is the block kmalloc gives, if it gives one. */
    method FindOrCreate(mm: nat, addr: nat, room: Option<int>) returns (q: Option<int>)
      requires Valid() && (room.Some? ==> room.value !in queues)
      modifies this`queues, this`chains
      ensures Valid()
      ensures q.Some? ==> FoundBy(queues, chains[Hash(addr)], mm, addr, q.value)
      ensures forall r :: r in old(queues) ==> r in queues && queues[r] == old(queues)[r]
      ensures q.None? <==> room.None? && !Keyed(old(queues), old(chains), mm, addr)
      ensures if q.None? || Keyed(old(queues), old(chains), mm, addr)
        then queues == old(queues) && chains == old(chains)
        else q == room && queues == old(queues)[q.value := Queue(mm, addr, [], 0)]
      ensures |chains| == BUCKETS && NoneLost(queues, procs) == NoneLost(old(queues), procs)
    {
      q := Find(mm, addr);
      if q.None? && room.Some? {
        Create(mm, addr, room.value);
        q := room;
      }
    }

    method Create(mm: nat, addr: nat, r: int)
      requires Valid() && r !in queues && forall x :: x in chains[Hash(addr)] ==> !SameKey(queues[x], mm, addr)
      modifies this`queues, this`chains
      ensures Valid() && queues == old(queues)[r := Queue(mm, addr, [], 0)]
      ensures FoundBy(queues, chains[Hash(addr)], mm, addr, r)
    {
      var h := Hash(addr);
      assert ChainOk(chains[h], h, queues);
      var chain := [r] + chains[h];
      queues := queues[r := Queue(mm, addr, [], 0)];
      assert forall x :: x in chain <==> x == r || x in chains[h];
      assert ChainOk(chain, h, queues);
      assert Naming(procs, r) == {} by {
        assert forall p :: p in procs ==> ProcOk(procs[p], old(queues));
      }
      chains := chains[h := chain];
      forall x | 0 <= x < BUCKETS
        ensures ChainOk(chains[x], x, queues)
      {
        assert ChainOk(old(chains)[x], x, old(queues));
      }
      forall x | x in queues
        ensures QueueOk(x, queues[x], procs, chains)
      {
        assert x != r ==> QueueOk(x, queues[x], procs, old(chains));
      }
    }

    /** futex_remove_q on a queue without processes. */
    method Remove(q: int)
      requires Valid() && q in queues && queues[q].nwaiters == 0
      modifies this`chains
      ensures Valid() && |chains| == BUCKETS && q !in chains[Hash(queues[q].addr)]
    {
      var h := Hash(queues[q].addr);
      var chain := chains[h];
      assert ChainOk(chain, h, queues);
      WithoutMembers(chain, q);
      chains := chains[h := Without(chain, q)];
      forall x | x in queues
        ensures QueueOk(x, queues[x], procs, chains)
      {
        assert QueueOk(x, queues[x], procs, old(chains));
      }
    }

    /**
     The first locked section of futex_wait.  `readable` and `equal` are what reading the futex
     word gives.  Only a parked process is counted, named and linked; the others leave no trace.
     */
    method WaitLink(p: int, mm: nat, addr: nat, room: Option<int>, readable: bool, equal: bool) returns (r: WaitResult)
      requires Valid() && p in procs && procs[p].queue.None? && procs[p].asleep.None?
      requires room.Some? ==> room.value !in queues
      modifies this
      ensures Valid()
      ensures NoneLost(old(queues), old(procs)) ==> NoneLost(queues, procs)
      ensures forall x :: x in old(queues) && r != Parked(x) ==> x in queues && queues[x] == old(queues)[x]
      ensures !r.Parked? ==> procs == old(procs)
      ensures r.NoMemory? <==> room.None? && !Keyed(old(queues), old(chains), mm, addr)
      ensures r.Faulted? <==> !r.NoMemory? && !readable
      ensures r.Again? <==> !r.NoMemory? && readable && !equal
      ensures r.Parked? && !Keyed(old(queues), old(chains), mm, addr) ==> room == Some(r.q)
      ensures r.Parked? && Keyed(old(queues), old(chains), mm, addr) ==>
        FoundBy(old(queues), old(chains)[Hash(addr)], mm, addr, r.q)
      ensures r.Parked? ==> procs == old(procs)[p := Proc(Some(r.q), Some(r.q), false)]
      ensures r.Parked? ==> r.q in queues && SameKey(queues[r.q], mm, addr)
      ensures r.Parked? ==> queues[r.q].list == [p] + (if r.q in old(queues) then old(queues)[r.q].list else [])
    {
      hide Inv, NoneLost, Hash;
      var found := FindOrCreate(mm, addr, room);
      if found.None? {
        return NoMemory;
      }
      var q := found.value;
      if !readable || !equal {
        if queues[q].nwaiters == 0 {
          Remove(q);
        }
        return if readable then Again else Faulted;
      }
      Park(p, q);
      return Parked(q);
    }

    method Park(p: int, q: int)
      requires Valid() && p in procs && procs[p].queue.None? && q in queues
      requires |chains| == BUCKETS && q in chains[Hash(queues[q].addr)]
      modifies this`queues, this`procs
      ensures Valid() && procs == old(procs)[p := Proc(Some(q), Some(q), false)]
      ensures q in queues && queues == old(queues)[q := queues[q]] &&
        SameKey(queues[q], old(queues)[q].mm, old(queues)[q].addr)
      ensures queues[q].list == [p] + old(queues)[q].list
      ensures NoneLost(old(queues), old(procs)) ==> NoneLost(queues, procs)
    {
      hide Inv, Hash;
      var list := [p] + queues[q].list;
      LinkedNames(queues, chains, procs, q);
      Joins(queues, chains, procs, p, Proc(Some(q), Some(q), false), q, list);
      queues := queues[q := queues[q].(list := list, nwaiters := queues[q].nwaiters + 1)];
      procs := procs[p := Proc(Some(q), Some(q), false)];
    }

    /** A process is unlinked from `q` and waits no longer, but goes on being counted. */
    method WakeOne(p: int, q: int)
      requires Valid() && p in procs && q in queues
      modifies this`queues, this`procs
      ensures Valid() && procs == old(procs)[p := old(procs)[p].(woken := true)]
      ensures queues == old(queues)[q := old(queues)[q].(list := Without(old(queues)[q].list, p))]
      ensures NoneLost(old(queues), old(procs)) ==> NoneLost(queues, procs)
    {
      hide Inv, Without, NoneLost, NoDuplicates;
      LinkedNames(queues, chains, procs, q);
      WithoutMembers(queues[q].list, p);
      var queue := queues[q].(list := Without(queues[q].list, p));
      var proc := procs[p].(woken := true);
      Shrinks(queues, chains, procs, q, queue.list);
      SameQueue(queues[q := queue], chains, procs, p, proc);
      if NoneLost(queues, procs) {
        ReachedKept(queues, procs, p, proc, q, queue);
      }
      queues, procs := queues[q := queue], procs[p := proc];
    }

    /**
     Waking up inside the sleep, for whatever reason: the process unlinks itself from the queue it
     went to sleep on, which a requeue may have made the wrong one.
     */
    method SleepUnlink(p: int)
      requires Valid() && p in procs && procs[p].asleep.Some?
      modifies this`queues, this`procs
      ensures Valid() && procs == old(procs)[p := old(procs)[p].(woken := true)]
      ensures var q := procs[p].asleep.value;
        && q in queues && p !in queues[q].list
        && queues == old(queues)[q := old(queues)[q].(list := Without(old(queues)[q].list, p))]
      ensures NoneLost(old(queues), old(procs)) ==> NoneLost(queues, procs)
    {
      var q := procs[p].asleep.value;
      assert ProcOk(procs[p], queues);
      LinkedNames(queues, chains, procs, q);
      WithoutMembers(queues[q].list, p);
      WakeOne(p, q);
    }

    /** A process is unlinked from the queue it names and no longer counted there. */
    method Leave(p: int, q: int, proc: Proc)
      requires Valid() && p in procs && procs[p].queue == Some(q) && q in queues && proc.queue.None?
      requires proc.asleep == procs[p].asleep || proc.asleep.None?
      modifies this`queues, this`procs
      ensures Valid() && |chains| == BUCKETS && procs == old(procs)[p := proc]
      ensures q in queues && queues == old(queues)[q := queues[q]] &&
        SameKey(queues[q], old(queues)[q].mm, old(queues)[q].addr)
      ensures queues[q].nwaiters == old(queues)[q].nwaiters - 1 >= 0
      ensures queues[q].list == Without(old(queues)[q].list, p)
      ensures NoneLost(old(queues), old(procs)) ==> NoneLost(queues, procs)
    {
      assert ProcOk(procs[p], queues);
      hide Inv, Without, NoneLost, NoDuplicates;
      LinkedNames(queues, chains, procs, q);
      WithoutMembers(queues[q].list, p);
      var list := Without(queues[q].list, p);
      Leaves(queues, chains, procs, p, proc, q, list);
      var queue := queues[q].(list := list, nwaiters := queues[q].nwaiters - 1);
      if NoneLost(queues, procs) {
        ReachedKept(queues, procs, p, proc, q, queue);
      }
      queues, procs := queues[q := queue], procs[p := proc];
    }

    /** The last locked section of futex_wait: the process leaves whatever queue it now names. */
    method Finish(p: int)
      requires Valid() && p in procs && procs[p].asleep.Some?
      modifies this
      ensures Valid() && procs == old(procs)[p := Proc(None, None, true)]
      ensures OnNoList(p)
      ensures NoneLost(old(queues), old(procs)) ==> NoneLost(queues, procs)
    {
      var mq := procs[p].queue;
      hide Inv, Without, NoneLost, NoDuplicates;
      if mq.None? {
        SameQueue(queues, chains, procs, p, Proc(None, None, true));
        procs := procs[p := Proc(None, None, true)];
      } else {
        Leave(p, mq.value, Proc(None, None, true));
        if queues[mq.value].nwaiters <= 0 {
          Remove(mq.value);
        }
      }
      forall q | q in queues ensures p !in queues[q].list {
        LinkedNames(queues, chains, procs, q);
      }
    }

    /** The loop of futex_wake on a found queue: the first waiters are woken, in list order. */
    method WakeList(q: int, n: int) returns (woken: nat)
      requires Valid() && q in queues && n > 0
      modifies this`queues, this`procs
      ensures Valid() && woken == Min(n, |old(queues)[q].list|)
      ensures queues == old(queues)[q := old(queues)[q].(list := old(queues)[q].list[woken..])]
      ensures procs == Flagged(old(procs), old(queues)[q].list[..woken])
      ensures NoneLost(old(queues), old(procs)) ==> NoneLost(queues, procs)
    {
      hide Inv, NoneLost;
      ghost var list := queues[q].list;
      LinkedNames(queues, chains, procs, q);
      woken := 0;
      while woken < n && queues[q].list != []
        invariant woken <= |list| && woken <= n && q in queues && Valid()
        invariant queues == old(queues)[q := old(queues)[q].(list := list[woken..])]
        invariant procs == Flagged(old(procs), list[..woken])
        invariant NoneLost(old(queues), old(procs)) ==> NoneLost(queues, procs)
        decreases |list| - woken
      {
        var p := queues[q].list[0];
        assert p == list[woken] && list[..woken + 1] == list[..woken] + [p];
        WakeOne(p, q);
        woken := woken + 1;
      }
    }

    /** futex_wake. */
    method Wake(mm: nat, addr: nat, n: int) returns (woken: nat, ghost q: Option<int>)
      requires Valid()
      modifies this`queues, this`procs
      ensures Valid()
      ensures NoneLost(old(queues), old(procs)) ==> NoneLost(queues, procs)
      ensures q.Some? <==> Keyed(old(queues), chains, mm, addr)
      ensures n <= 0 || q.None? ==> woken == 0 && queues == old(queues) && procs == old(procs)
      ensures n > 0 && q.Some? ==>
        && FoundBy(old(queues), chains[Hash(addr)], mm, addr, q.value)
        && woken == Min(n, |old(queues)[q.value].list|)
        && queues == old(queues)[q.value := old(queues)[q.value].(list := old(queues)[q.value].list[woken..])]
        && procs == Flagged(old(procs), old(queues)[q.value].list[..woken])
    {
      var found := Find(mm, addr);
      q := found;
      if n <= 0 || found.None? {
        return 0, q;
      }
      woken := WakeList(found.value, n);
    }

    /** One process moves from the head of q1's list to the end of what was moved to q2 so far. */
    method MoveOne(p: int, q1: int, q2: int, moved: seq<int>)
      requires Valid() && q1 in queues && q2 in queues && q1 != q2 && p in procs && procs[p].queue == Some(q1)
      requires |chains| == BUCKETS && q2 in chains[Hash(queues[q2].addr)]
      requires moved == [] || moved == queues[q2].list
      modifies this`queues, this`procs
      ensures Valid() && procs == old(procs)[p := old(procs)[p].(queue := Some(q2))]
      ensures q1 in queues && q2 in queues && queues == old(queues)[q1 := queues[q1]][q2 := queues[q2]]
      ensures SameKey(queues[q1], old(queues)[q1].mm, old(queues)[q1].addr)
      ensures SameKey(queues[q2], old(queues)[q2].mm, old(queues)[q2].addr)
      ensures queues[q1].list == Without(old(queues)[q1].list, p) && queues[q2].list == moved + [p]
    {
      hide Inv, NoneLost, Without, Hash;
      LinkedNames(queues, chains, procs, q1);
      LinkedNames(queues, chains, procs, q2);
      WithoutMembers(queues[q1].list, p);
      var list := Without(queues[q1].list, p);
      Moves(queues, chains, procs, p, q1, list, q2, moved + [p]);
      queues := MovedQueues(queues, q1, list, q2, moved + [p]);
      procs := procs[p := procs[p].(queue := Some(q2))];
    }

    /** One turn of the loop of futex_requeue. */
    method RequeueStep(q1: int, q2: int, wake: bool, woken: nat, moved: nat, ghost queues0: Queues, ghost procs0: Procs)
      requires Valid() && Midway(queues0, procs0, queues, procs, q1, q2, woken, moved) && queues[q1].list != []
      requires |chains| == BUCKETS && q2 in chains[Hash(queues[q2].addr)] && (wake ==> moved == 0)
      modifies this`queues, this`procs
      ensures Valid()
      ensures wake ==> Midway(queues0, procs0, queues, procs, q1, q2, woken + 1, moved)
      ensures !wake ==> Midway(queues0, procs0, queues, procs, q1, q2, woken, moved + 1)
      ensures q2 in queues && queues[q2].addr == old(queues)[q2].addr
    {
      hide Inv, NoneLost, Hash, Requeued;
      ghost var l := queues0[q1].list;
      var p := queues[q1].list[0];
      assert p == l[woken + moved];
      LinkedNames(queues, chains, procs, q1);
      if wake {
        assert l[..woken + 1] == l[..woken] + [p] && l[woken..woken + moved] == [] == l[woken + 1..woken + 1 + moved];
        RequeuedWoken(procs0, l[..woken], q2, p);
        Leave(p, q1, Proc(None, procs[p].asleep, true));
      } else {
        assert l[woken..woken + moved + 1] == l[woken..woken + moved] + [p];
        RequeuedMoved(procs0, l[..woken], l[woken..woken + moved], q2, p);
        MoveOne(p, q1, q2, if moved == 0 then [] else queues[q2].list);
      }
    }

    /** The loop of futex_requeue and the cut of q2's list after it. */
    method RequeueLists(q1: int, q2: int, nwake: nat, nmove: nat) returns (woken: nat, ghost moved: nat)
      requires Valid() && q1 in queues && q2 in queues && q1 != q2
      requires |chains| == BUCKETS && q2 in chains[Hash(queues[q2].addr)]
      modifies this`queues, this`procs
      ensures Valid() && q1 in queues && |chains| == BUCKETS
      ensures woken == Min(nwake, |old(queues)[q1].list|) && moved == Min(nmove, |old(queues)[q1].list| - woken)
      ensures Midway(old(queues)[q2 := old(queues)[q2].(list := [])], old(procs), queues, procs, q1, q2, woken, moved)
    {
      hide Inv, NoneLost, Hash, Requeued, NoDuplicates;
      LinkedNames(queues, chains, procs, q1);
      ghost var l := queues[q1].list;
      NothingRequeued(procs, q2);
      woken := 0;
      var shifted: nat := 0;
      assert l[..0] == [] == l[0..0];
      while queues[q1].list != [] && (woken < nwake || shifted < nmove)
        invariant Valid() && Midway(old(queues), old(procs), queues, procs, q1, q2, woken, shifted)
        invariant woken <= nwake && shifted <= nmove && (shifted > 0 ==> woken == nwake)
        invariant queues[q2].addr == old(queues)[q2].addr
        decreases |l| - woken - shifted
      {
        var wake := woken < nwake;
        RequeueStep(q1, q2, wake, woken, shifted, old(queues), old(procs));
        if wake {
          woken := woken + 1;
        } else {
          shifted := shifted + 1;
        }
      }
      if shifted == 0 {
        Shrinks(queues, chains, procs, q2, []);
        queues := queues[q2 := queues[q2].(list := [])];
      }
      moved := shifted;
    }

    /** The loop of futex_requeue when both addresses are the same, on the links themselves. */
    method RequeueSelf(q: int, nwake: nat, nmove: nat) returns (woken: nat)
      requires Valid() && q in queues
      modifies this`queues, this`procs
      ensures SelfRequeued(old(queues), old(procs), queues, procs, q, nwake, nmove, woken)
    {
      hide Inv, NoDuplicates, Requeued, Chain, Links, Turning, SelfRequeued;
      ghost var l := queues[q].list;
      LinkedNames(queues, chains, procs, q);
      var head, next, pp := First(queues[q].list), Links(queues[q].list), Head;
      var n, moved: nat := queues[q].nwaiters, 0;
      woken := 0;
      CountIsNaming(queues, chains, procs, q);
      StartTurning(procs, q, l);
      while head.Some? && (woken < nwake || moved < nmove)
        invariant Turning(l, woken, moved, head, next, pp) && woken <= nwake && moved <= nmove
        invariant moved > 0 ==> woken == nwake
        invariant queues == old(queues) && n == Clamped(queues[q].nwaiters - woken - moved)
        invariant woken <= |l| && procs == Requeued(old(procs), l[..woken], [], q)
        decreases |l| - woken, 2 - moved
      {
        Heading(l, woken, moved, head, next, pp);
        var w := head.value;
        ghost var was, from := next, head;
        head, next := next[w], Unhooked(next, w);
        if woken < nwake {
          TurnWakes(l, woken, from, was, old(procs), q);
          procs := procs[w := Proc(None, procs[w].asleep, true)];
          woken := woken + 1;
        } else {
          TurnMoves(l, woken, moved, from, was, pp);
          match pp {
            case Head => head := Some(w);
            case NextOf(v) => next := next[v := Some(w)];
          }
          pp := NextOf(w);
          moved := moved + 1;
        }
        n := if n > 0 then n - 1 else n;
      }
      Heading(l, woken, moved, head, next, pp);
      LastWrite(l, woken, moved, head, next, pp);
      match pp {
        case Head => head := None;
        case NextOf(v) => next := next[v := None];
      }
      var list := if head.Some? then [head.value] else [];
      assert Chain(head, next, list);
      queues := queues[q := queues[q].(list := list, nwaiters := n)];
      SelfEnds(old(queues), old(procs), queues, procs, q, nwake, nmove, woken, moved, list, n);
    }

    /**
     futex_requeue; `qs` are the two queues when both are found.  On two addresses the counts and
     lists stay right.  From an address onto itself they do if and only if nothing is moved, and who
     is lost is said by `OthersWoken`.
     */
    method Requeue(mm: nat, addr1: nat, addr2: nat, nwake: int, nmove: int, room: Option<int>)
      returns (r: RequeueResult, ghost qs: Option<(int, int)>)
      requires Valid() && (room.Some? ==> room.value !in queues)
      modifies this
      ensures qs.None? || addr1 != addr2 ==> Valid()
      ensures qs.None? ==> queues == old(queues) && chains == old(chains) && procs == old(procs)
      ensures var known := Keyed(old(queues), old(chains), mm, addr1);
        var nowhere := addr1 != addr2 && !Keyed(old(queues), old(chains), mm, addr2) && room.None?;
        && (qs.None? <==> nwake < 0 || nmove < 0 || !known || nowhere)
        && (r.OutOfMemory? <==> nwake >= 0 && nmove >= 0 && known && nowhere)
      ensures qs.None? && r.Woke? ==> r.woken == 0
      ensures qs.Some? ==>
        && FoundBy(old(queues), old(chains)[Hash(addr1)], mm, addr1, qs.value.0)
        && (if Keyed(old(queues), old(chains), mm, addr2)
            then FoundBy(old(queues), old(chains)[Hash(addr2)], mm, addr2, qs.value.1)
            else room == Some(qs.value.1))
      ensures qs.Some? && addr1 != addr2 ==>
        RequeueDone(old(queues), old(procs), queues, procs, mm, addr1, addr2, nwake, nmove, qs.value.0, qs.value.1,
                    r.woken)
      ensures qs.Some? && addr1 == addr2 ==>
        var q := qs.value.0;
        && chains == old(chains) && q == qs.value.1
        && SelfRequeued(old(queues), old(procs), queues, procs, q, nwake, nmove, r.woken)
        && (Valid() <==> nmove == 0 || nwake >= |old(queues)[q].list|)
        && (NoneLost(old(queues), old(procs)) ==>
              (NoneLost(queues, procs) <==> OthersWoken(old(queues)[q].list[r.woken..], nmove, old(procs))))
    {
      assert |chains| == BUCKETS;
      hide Inv, NoneLost, Hash, Requeued, Midway, RequeueDone, SelfRequeued, OthersWoken;
      if nwake < 0 || nmove < 0 {
        return Woke(0), None;
      }
      var found := Find(mm, addr1);
      if found.None? {
        return Woke(0), None;
      }
      if addr1 == addr2 {
        var n := RequeueSelf(found.value, nwake, nmove);
        SelfDone(old(queues), chains, old(procs), queues, procs, found.value, nwake, nmove, n);
        return Woke(n), Some((found.value, found.value));
      }
      var other := FindOrCreate(mm, addr2, room);
      if other.None? {
        return OutOfMemory, None;
      }
      var q1, q2 := found.value, other.value;
      ghost var queues0, chains0, moved := queues, chains, 0;
      var woken;
      woken, moved := RequeueLists(q1, q2, nwake, nmove);
      Concluded(old(queues), queues0, chains0, old(procs), queues, procs, mm, addr1, addr2, nwake, nmove, q1, q2, woken,
                moved);
      if queues[q1].nwaiters <= 0 {
        Remove(q1);
      }
      return Woke(woken), Some((q1, q2));
    }
  }
}
