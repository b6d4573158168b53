/**
 The vnode cache: chains hashed on (mount, inode), a doubly linked least-recently-used ring of the
 unreferenced vnodes, and reference counts.  Every operation is one atomic step.
 */
module VnodeCache {

  import opened Lists

  const BUCKETS := 64
  const MAX := 256

  /** The dummy head of the ring, which is no vnode. */
  const HEAD := 0

  datatype Option<+T> = None | Some(value: T)

  datatype Vnode = Vnode(mount: int, ino: int, refcount: int, inHash: bool, cached: bool, doomed: bool)

  type Nodes = map<int, Vnode>
  type Chains = seq<seq<int>>
  type Links = map<int, int>

  function KeyWord(mount: bv32, ino: bv32): bv32 {
    var h0 := (mount ^ ino) * 2654435761;
    var h1 := (h0 ^ (h0 >> 13)) * 2654435761;
    h1 ^ (h1 >> 16)
  }

  /** vn_key: both arguments are cut to 32 bits. */
  function Key(mount: int, ino: int): (b: nat)
    ensures b < BUCKETS
  {
    KeyWord((mount % 0x1_0000_0000) as bv32, (ino % 0x1_0000_0000) as bv32) as nat % BUCKETS
  }

  predicate SameKey(v: Vnode, mount: int, ino: int) {
    v.mount == mount && v.ino == ino
  }

  ghost function Hashed(nodes: Nodes): set<int> {
    set v | v in nodes && nodes[v].inHash
  }

  // ----- The ring -----

  /** Position `i` on the way from the head through `s` back to the head. */
  ghost function At(s: seq<int>, i: nat): int
    requires i <= |s| + 1
  {
    if i == 0 || i == |s| + 1 then HEAD else s[i - 1]
  }

  ghost predicate Joint(next: Links, prev: Links, s: seq<int>, i: nat)
    requires i <= |s|
  {
    var a, b := At(s, i), At(s, i + 1);
    a in next && b in prev && next[a] == b && prev[b] == a
  }

  /** The ring goes from the head through `s` and back, in both directions. */
  ghost predicate Ring(next: Links, prev: Links, s: seq<int>) {
    NoDuplicates(s) && HEAD !in s && forall i :: 0 <= i <= |s| ==> Joint(next, prev, s, i)
  }

  function UnlinkNext(next: Links, prev: Links, v: int): Links
    requires v in next && v in prev
  {
    next[prev[v] := next[v]]
  }

  function UnlinkPrev(next: Links, prev: Links, v: int): Links
    requires v in next && v in prev
  {
    prev[next[v] := prev[v]]
  }

  lemma {:induction false} UnlinkRing(next: Links, prev: Links, s: seq<int>, k: nat)
    requires Ring(next, prev, s) && k < |s|
    ensures s[k] in next && s[k] in prev
    ensures Ring(UnlinkNext(next, prev, s[k]), UnlinkPrev(next, prev, s[k]), Without(s, s[k]))
  {
    var v, t := s[k], Without(s, s[k]);
    assert Joint(next, prev, s, k) && Joint(next, prev, s, k + 1);
    assert NoDuplicates(t) && HEAD !in t by {
      WithoutMembers(s, v);
    }
    WithoutAt(s, k);
    forall i | 0 <= i <= |t|
      ensures Joint(UnlinkNext(next, prev, v), UnlinkPrev(next, prev, v), t, i)
    {
      assert Joint(next, prev, s, i) && Joint(next, prev, s, i + 1);
    }
  }

  function PushNext(next: Links, v: int): Links
    requires HEAD in next
  {
    next[v := next[HEAD]][HEAD := v]
  }

  function PushPrev(next: Links, prev: Links, v: int): Links
    requires HEAD in next
  {
    prev[v := HEAD][next[HEAD] := v]
  }

  lemma {:induction false} PushRing(next: Links, prev: Links, s: seq<int>, v: int)
    requires Ring(next, prev, s) && v != HEAD && v !in s
    ensures HEAD in next && Ring(PushNext(next, v), PushPrev(next, prev, v), [v] + s)
  {
    assert Joint(next, prev, s, 0);
    forall i | 0 <= i <= |s| + 1
      ensures Joint(PushNext(next, v), PushPrev(next, prev, v), [v] + s, i)
    {
      if i >= 1 {
        assert Joint(next, prev, s, i - 1);
      }
    }
  }

  lemma {:induction false} LastOfRing(next: Links, prev: Links, s: seq<int>)
    requires Ring(next, prev, s)
    ensures HEAD in prev && prev[HEAD] == if s == [] then HEAD else s[|s| - 1]
  {
    assert Joint(next, prev, s, |s|);
  }

  // ----- The cache -----

  /** A chain holds hashed vnodes of its key, at most one per (mount, inode). */
  ghost predicate ChainOk(chain: seq<int>, b: nat, nodes: Nodes) {
    && NoDuplicates(chain)
    && (forall v :: v in chain ==> v in nodes && nodes[v].inHash && Key(nodes[v].mount, nodes[v].ino) == b)
    && (forall v, w :: v in chain && w in chain && v != w ==> !SameKey(nodes[v], nodes[w].mount, nodes[w].ino))
  }

  ghost predicate ChainsOk(chains: Chains, nodes: Nodes) {
    |chains| == BUCKETS && forall b :: 0 <= b < BUCKETS ==> ChainOk(chains[b], b, nodes)
  }

  /** A vnode is cached when it is hashed and unreferenced; an unreferenced vnode that is not hashed does not exist. */
  ghost predicate NodeOk(v: int, node: Vnode, chains: Chains, lru: seq<int>)
    requires |chains| == BUCKETS
  {
    && v != HEAD && node.refcount >= 0
    && (node.refcount == 0 ==> node.inHash)
    && (node.cached <==> node.inHash && node.refcount == 0)
    && (v in lru <==> node.cached)
    && (node.doomed ==> !node.inHash)
    && (node.inHash ==> v in chains[Key(node.mount, node.ino)])
  }

  ghost predicate Inv(nodes: Nodes, chains: Chains, lru: seq<int>, count: int) {
    && ChainsOk(chains, nodes)
    && (forall v :: v in nodes ==> NodeOk(v, nodes[v], chains, lru))
    && (forall v :: v in lru ==> v in nodes)
    && count == |Hashed(nodes)|
  }

  ghost predicate Found(nodes: Nodes, chains: Chains, mount: int, ino: int, v: int)
    requires |chains| == BUCKETS
  {
    v in chains[Key(mount, ino)] && v in nodes && SameKey(nodes[v], mount, ino) && nodes[v].inHash
  }

  ghost predicate NotFound(nodes: Nodes, mount: int, ino: int) {
    forall v :: v in nodes && nodes[v].inHash ==> !SameKey(nodes[v], mount, ino)
  }

  /** At most one hashed vnode has a given mount and inode. */
  lemma {:induction false} KeyUnique(nodes: Nodes, chains: Chains, lru: seq<int>, count: int, v: int, w: int)
    requires Inv(nodes, chains, lru, count) && v in nodes && w in nodes && nodes[v].inHash && nodes[w].inHash
    requires SameKey(nodes[v], nodes[w].mount, nodes[w].ino)
    ensures v == w
  {
    var b := Key(nodes[v].mount, nodes[v].ino);
    assert NodeOk(v, nodes[v], chains, lru) && NodeOk(w, nodes[w], chains, lru) && ChainOk(chains[b], b, nodes);
  }

  /** The members of the ring are exactly the hashed vnodes nobody refers to. */
  lemma {:induction false} RingIsUnreferenced(nodes: Nodes, chains: Chains, lru: seq<int>, count: int, v: int)
    requires Inv(nodes, chains, lru, count)
    ensures v in lru <==> v in nodes && nodes[v].inHash && nodes[v].refcount == 0
  {
    if v in nodes {
      assert NodeOk(v, nodes[v], chains, lru);
    }
  }

  function Unchained(chains: Chains, node: Vnode, v: int): (r: Chains)
    requires |chains| == BUCKETS
    ensures |r| == BUCKETS
  {
    var b := Key(node.mount, node.ino);
    chains[b := Without(chains[b], v)]
  }

  /** Vnode `v` leaves its chain; only its own entry of `nodes` may change. */
  lemma {:induction false} ChainsWithout(chains: Chains, nodes: Nodes, nodes': Nodes, v: int)
    requires ChainsOk(chains, nodes) && v in nodes
    requires forall w :: w in nodes && w != v ==> w in nodes' && nodes'[w] == nodes[w]
    ensures ChainsOk(Unchained(chains, nodes[v], v), nodes')
    ensures forall b :: 0 <= b < BUCKETS ==> v !in Unchained(chains, nodes[v], v)[b]
    ensures forall w :: w in nodes && w != v && w in chains[Key(nodes[w].mount, nodes[w].ino)] ==>
      w in Unchained(chains, nodes[v], v)[Key(nodes[w].mount, nodes[w].ino)]
  {
    hide Key;
    var b := Key(nodes[v].mount, nodes[v].ino);
    var chains' := Unchained(chains, nodes[v], v);
    assert ChainOk(chains[b], b, nodes);
    WithoutMembers(chains[b], v);
    forall x | 0 <= x < BUCKETS
      ensures ChainOk(chains'[x], x, nodes')
    {
      assert ChainOk(chains[x], x, nodes);
      assert v !in chains'[x];
    }
  }

  /** A vnode without references leaves the hash and is destroyed. */
  lemma {:induction false} Destroyed(nodes: Nodes, chains: Chains, lru: seq<int>, count: int, v: int)
    requires Inv(nodes, chains, lru, count) && v in nodes && nodes[v].inHash && NoDuplicates(lru)
    ensures Inv(nodes - {v}, Unchained(chains, nodes[v], v), Without(lru, v), count - 1)
  {
    hide Key;
    var nodes' := nodes - {v};
    ChainsWithout(chains, nodes, nodes', v);
    WithoutMembers(lru, v);
    forall w | w in nodes'
      ensures NodeOk(w, nodes'[w], Unchained(chains, nodes[v], v), Without(lru, v))
    {
      assert NodeOk(w, nodes[w], chains, lru);
    }
    assert Hashed(nodes') == Hashed(nodes) - {v};
  }

  /** A vnode in use leaves the hash and is doomed. */
  lemma {:induction false} Doomed(nodes: Nodes, chains: Chains, lru: seq<int>, count: int, v: int)
    requires Inv(nodes, chains, lru, count) && v in nodes && nodes[v].inHash && nodes[v].refcount > 0
    ensures Inv(nodes[v := nodes[v].(inHash := false, doomed := true)], Unchained(chains, nodes[v], v), lru, count - 1)
  {
    hide Key;
    var nodes' := nodes[v := nodes[v].(inHash := false, doomed := true)];
    ChainsWithout(chains, nodes, nodes', v);
    forall w | w in nodes'
      ensures NodeOk(w, nodes'[w], Unchained(chains, nodes[v], v), lru)
    {
      assert NodeOk(w, nodes[w], chains, lru);
    }
    assert Hashed(nodes') == Hashed(nodes) - {v};
  }

  /** Only a reference count, and with it the place on the ring, changes. */
  lemma {:induction false} Counted(nodes: Nodes, chains: Chains, lru: seq<int>, count: int, v: int, node: Vnode,
                                   lru': seq<int>)
    requires Inv(nodes, chains, lru, count) && v in nodes && SameKey(node, nodes[v].mount, nodes[v].ino)
    requires node.inHash == nodes[v].inHash && node.doomed == nodes[v].doomed
    requires NodeOk(v, node, chains, lru') && forall w :: w != v ==> (w in lru' <==> w in lru)
    ensures Inv(nodes[v := node], chains, lru', count)
  {
    hide Key;
    var nodes' := nodes[v := node];
    forall x | 0 <= x < BUCKETS
      ensures ChainOk(chains[x], x, nodes')
    {
      assert ChainOk(chains[x], x, nodes);
    }
    forall w | w in nodes'
      ensures NodeOk(w, nodes'[w], chains, lru')
    {
      if w != v {
        assert NodeOk(w, nodes[w], chains, lru);
      }
    }
    assert Hashed(nodes') == Hashed(nodes);
  }

  /** A vnode outside the hash goes without a trace. */
  lemma {:induction false} Unhashed(nodes: Nodes, chains: Chains, lru: seq<int>, count: int, v: int)
    requires Inv(nodes, chains, lru, count) && v in nodes && !nodes[v].inHash
    ensures Inv(nodes - {v}, chains, lru, count)
  {
    var nodes' := nodes - {v};
    hide Key;
    forall x | 0 <= x < BUCKETS
      ensures ChainOk(chains[x], x, nodes')
    {
      assert ChainOk(chains[x], x, nodes);
    }
    assert NodeOk(v, nodes[v], chains, lru);
    assert Hashed(nodes') == Hashed(nodes);
  }

  lemma {:induction false} Unlinked(nodes: Nodes, chains: Chains, lru: seq<int>, count: int, v: int)
    requires Inv(nodes, chains, lru, count) && v in nodes && !nodes[v].inHash
    ensures v !in lru && forall b :: 0 <= b < |chains| ==> v !in chains[b]
  {
    assert NodeOk(v, nodes[v], chains, lru);
    forall b | 0 <= b < |chains| ensures v !in chains[b] {
      assert ChainOk(chains[b], b, nodes);
    }
  }

  lemma {:induction false} Added(nodes: Nodes, chains: Chains, lru: seq<int>, count: int, v: int, mount: int, ino: int)
    requires Inv(nodes, chains, lru, count) && v !in nodes && v != HEAD
    ensures Inv(nodes[v := Vnode(mount, ino, 1, false, false, false)], chains, lru, count)
  {
    var nodes' := nodes[v := Vnode(mount, ino, 1, false, false, false)];
    hide Key;
    forall x | 0 <= x < BUCKETS
      ensures ChainOk(chains[x], x, nodes')
    {
      assert ChainOk(chains[x], x, nodes);
    }
    forall w | w in nodes'
      ensures NodeOk(w, nodes'[w], chains, lru)
    {
      if w != v {
        assert NodeOk(w, nodes[w], chains, lru);
      }
    }
    assert Hashed(nodes') == Hashed(nodes);
  }

  lemma {:induction false} ChainsWith(chains: Chains, nodes: Nodes, v: int)
    requires ChainsOk(chains, nodes) && v in nodes && !nodes[v].inHash
    requires NotFound(nodes, nodes[v].mount, nodes[v].ino)
    ensures var b := Key(nodes[v].mount, nodes[v].ino);
      ChainsOk(chains[b := [v] + chains[b]], nodes[v := nodes[v].(inHash := true)])
  {
    hide Key;
    var b := Key(nodes[v].mount, nodes[v].ino);
    var nodes', chains' := nodes[v := nodes[v].(inHash := true)], chains[b := [v] + chains[b]];
    forall x | 0 <= x < BUCKETS
      ensures ChainOk(chains'[x], x, nodes')
    {
      assert ChainOk(chains[x], x, nodes);
      assert v !in chains[x];
      if x == b {
        assert forall w :: w in [v] + chains[b] <==> w in chains[b] || w == v;
      }
    }
  }

  /** A vnode in use enters the hash under a key that is not there. */
  lemma {:induction false} Committed(nodes: Nodes, chains: Chains, lru: seq<int>, count: int, v: int)
    requires Inv(nodes, chains, lru, count) && v in nodes && !nodes[v].inHash && !nodes[v].doomed
    requires NotFound(nodes, nodes[v].mount, nodes[v].ino)
    ensures var b := Key(nodes[v].mount, nodes[v].ino);
      Inv(nodes[v := nodes[v].(inHash := true)], chains[b := [v] + chains[b]], lru, count + 1)
  {
    hide Key, ChainOk, NotFound;
    ChainsWith(chains, nodes, v);
    var b := Key(nodes[v].mount, nodes[v].ino);
    var nodes', chains' := nodes[v := nodes[v].(inHash := true)], chains[b := [v] + chains[b]];
    assert NodeOk(v, nodes[v], chains, lru);
    forall w | w in nodes'
      ensures NodeOk(w, nodes'[w], chains', lru)
    {
      if w != v {
        assert NodeOk(w, nodes[w], chains, lru);
      }
    }
    assert Hashed(nodes') == Hashed(nodes) + {v};
  }

  /** The vnodes after those in `gone` left the hash: the unreferenced ones are destroyed, the others doomed. */
  ghost function Dropped(nodes: Nodes, gone: set<int>): Nodes {
    map v | v in nodes && !(v in gone && nodes[v].refcount == 0) ::
      if v in gone then nodes[v].(inHash := false, doomed := true) else nodes[v]
  }

  ghost function HashedOn(nodes: Nodes, mount: int): set<int> {
    set v | v in nodes && nodes[v].inHash && nodes[v].mount == mount
  }

  lemma {:induction false} DroppedAnother(nodes: Nodes, gone: set<int>, v: int)
    requires v in Dropped(nodes, gone) && Dropped(nodes, gone)[v].inHash
    ensures v !in gone && Dropped(Dropped(nodes, gone), {v}) == Dropped(nodes, gone + {v})
    ensures v in nodes && nodes[v] == Dropped(nodes, gone)[v]
  {
  }

  lemma {:induction false} DroppedOne(nodes: Nodes, v: int)
    requires v in nodes
    ensures Dropped(nodes, {v}) ==
      if nodes[v].refcount == 0 then nodes - {v} else nodes[v := nodes[v].(inHash := false, doomed := true)]
  {
  }

  ghost function Evicted(nodes: Nodes, gone: seq<int>): Nodes {
    map v | v in nodes && v !in gone :: nodes[v]
  }

  /** `s` without the members of `gone`, in the same order. */
  ghost function Keep(s: seq<int>, gone: set<int>): seq<int> {
    if s == [] then [] else (if s[0] in gone then [] else [s[0]]) + Keep(s[1..], gone)
  }

  lemma {:induction false} KeepMembers(s: seq<int>, gone: set<int>)
    ensures forall x :: x in Keep(s, gone) <==> x in s && x !in gone
  {
    if s != [] {
      KeepMembers(s[1..], gone);
      assert s == [s[0]] + s[1..];
    }
  }

  lemma {:induction false} KeepOneLess(s: seq<int>, gone: set<int>, v: int)
    requires NoDuplicates(s) && v !in gone
    ensures Without(Keep(s, gone), v) == Keep(s, gone + {v})
  {
    if s != [] {
      KeepOneLess(s[1..], gone, v);
      if s[0] == v {
        KeepMembers(s[1..], gone);
        WithoutAbsent(Keep(s[1..], gone), v);
        assert s[0] !in s[1..];
      }
      assert s[0] in gone ==> Keep(s, gone) == Keep(s[1..], gone);
      assert s[0] !in gone ==> Keep(s, gone)[1..] == Keep(s[1..], gone);
    }
  }

  lemma {:induction false} KeepAll(s: seq<int>)
    ensures Keep(s, {}) == s
  {
    if s != [] {
      KeepAll(s[1..]);
    }
  }

  class Cache {
    var nodes: Nodes
    var chains: Chains
    var next: Links
    var prev: Links
    var count: int

    /** The ring as a sequence, most recently released first. */
    ghost var lru: seq<int>

    ghost predicate Core()
      reads this
    {
      Inv(nodes, chains, lru, count) && Ring(next, prev, lru)
    }

    ghost predicate Valid()
      reads this
    {
      Core() && (count <= MAX || lru == [])
    }

    constructor ()
      ensures Valid() && nodes == map[] && lru == []
    {
      nodes, chains, count, lru := map[], seq(BUCKETS, _ => []), 0, [];
      next, prev := map[HEAD := HEAD], map[HEAD := HEAD];
    }

    /** What the invariants say of one vnode. */
    lemma {:induction false} Facts(v: int)
      requires Core() && v in nodes
      ensures |chains| == BUCKETS && NodeOk(v, nodes[v], chains, lru) && NoDuplicates(lru) && ChainsOk(chains, nodes)
    {
    }

    /** vn_hash_find. */
    method Find(mount: int, ino: int) returns (v: Option<int>)
      requires Core()
      ensures v.Some? ==> Found(nodes, chains, mount, ino, v.value)
      ensures v.None? ==> NotFound(nodes, mount, ino)
    {
      var b := Key(mount, ino);
      var chain := chains[b];
      hide Key;
      assert ChainOk(chain, b, nodes);
      assert forall j :: 0 <= j < |chain| ==> chain[j] in chain && chain[j] in nodes;
      for i := 0 to |chain|
        invariant forall j :: 0 <= j < i ==> !SameKey(nodes[chain[j]], mount, ino)
      {
        if SameKey(nodes[chain[i]], mount, ino) {
          return Some(chain[i]);
        }
      }
      forall v | v in nodes && nodes[v].inHash
        ensures !SameKey(nodes[v], mount, ino)
      {
        assert NodeOk(v, nodes[v], chains, lru);
      }
      return None;
    }

    /** vn_lru_unlink. */
    method LruUnlink(v: int)
      requires Ring(next, prev, lru) && v in lru
      modifies this`next, this`prev, this`lru
      ensures Ring(next, prev, lru) && lru == Without(old(lru), v)
    {
      ghost var k :| 0 <= k < |lru| && lru[k] == v;
      UnlinkRing(next, prev, lru, k);
      next, prev := UnlinkNext(next, prev, v), UnlinkPrev(next, prev, v);
      lru := Without(lru, v);
    }

    /** vn_lru_push. */
    method LruPush(v: int)
      requires Ring(next, prev, lru) && v !in lru && v != HEAD
      modifies this`next, this`prev, this`lru
      ensures Ring(next, prev, lru) && lru == [v] + old(lru)
    {
      PushRing(next, prev, lru, v);
      next, prev := PushNext(next, v), PushPrev(next, prev, v);
      lru := [v] + lru;
    }

    /** vn_destroy: only of a vnode that exists, is in no list and that nobody refers to. */
    method Destroy(v: int)
      requires v in nodes && nodes[v].refcount == 0 && !nodes[v].inHash && !nodes[v].cached
      requires v !in lru && forall b :: 0 <= b < |chains| ==> v !in chains[b]
      modifies this`nodes
      ensures nodes == old(nodes) - {v}
    {
      nodes := nodes - {v};
    }

    /** The vnode leaves its chain and the ring. */
    method Unhash(v: int)
      requires Core() && v in nodes && nodes[v].inHash
      modifies this
      ensures Ring(next, prev, lru) && count == old(count) - 1
      ensures nodes == old(nodes)[v := old(nodes)[v].(inHash := false, cached := false)]
      ensures |old(chains)| == BUCKETS && chains == Unchained(old(chains), old(nodes)[v], v) &&
        lru == Without(old(lru), v)
      ensures v !in lru && forall b :: 0 <= b < |chains| ==> v !in chains[b]
    {
      hide Key, Ring, Inv, ChainsOk, NoDuplicates, Unchained, Without;
      Facts(v);
      ChainsWithout(chains, nodes, nodes[v := nodes[v].(inHash := false)], v);
      WithoutMembers(lru, v);
      if nodes[v].cached {
        LruUnlink(v);
      } else {
        WithoutAbsent(lru, v);
      }
      chains := Unchained(chains, nodes[v], v);
      count := count - 1;
      nodes := nodes[v := nodes[v].(inHash := false, cached := false)];
    }

    /** The vnode leaves the hash and is destroyed if nobody refers to it, and doomed otherwise. */
    method Drop(v: int)
      requires Core() && v in nodes && nodes[v].inHash
      modifies this
      ensures Core() && nodes == Dropped(old(nodes), {v}) && lru == Without(old(lru), v) && count == old(count) - 1
      ensures |old(chains)| == BUCKETS && chains == Unchained(old(chains), old(nodes)[v], v)
    {
      hide Key, Ring, Inv, ChainsOk, NoDuplicates, Unchained, Without, Dropped;
      Facts(v);
      DroppedOne(nodes, v);
      var idle := nodes[v].refcount == 0;
      if idle {
        Destroyed(nodes, chains, lru, count, v);
      } else {
        Doomed(nodes, chains, lru, count, v);
        WithoutAbsent(lru, v);
      }
      Unhash(v);
      if idle {
        Destroy(v);
        assert nodes == old(nodes) - {v};
      } else {
        nodes := nodes[v := nodes[v].(doomed := true)];
        assert nodes == old(nodes)[v := old(nodes)[v].(inHash := false, doomed := true)];
      }
    }

    /**
     vn_cache_trim: the least recently released go first, and no more than needed.  The
     victim is never in use, so the source's branch for one that is cannot be taken.
     */
    method Trim() returns (ghost k: nat)
      requires Core()
      modifies this
      ensures Valid() && k <= |old(lru)| && lru == old(lru)[..k]
      ensures count == old(count) - (|old(lru)| - k) && (k < |old(lru)| ==> count >= MAX)
      ensures nodes == Evicted(old(nodes), old(lru)[k..])
    {
      hide Key, Inv;
      k := |lru|;
      while count > MAX
        invariant Core() && k <= |old(lru)| && lru == old(lru)[..k]
        invariant count == old(count) - (|old(lru)| - k) && (k < |old(lru)| ==> count >= MAX)
        invariant nodes == Evicted(old(nodes), old(lru)[k..])
        decreases |lru|
      {
        LastOfRing(next, prev, lru);
        var victim := prev[HEAD];
        if victim == HEAD {
          break;
        }
        assert old(lru)[k - 1..] == [victim] + old(lru)[k..];
        RingIsUnreferenced(nodes, chains, lru, count, victim);
        WithoutAt(lru, |lru| - 1);
        Drop(victim);
        k := k - 1;
      }
    }

    /** vnode_cache_get: a hit takes the vnode off the ring, a miss makes one outside the hash. */
    method Get(mount: int, ino: int, room: Option<int>) returns (v: Option<int>, hit: bool)
      requires Valid() && (room.Some? ==> room.value != HEAD && room.value !in nodes)
      modifies this
      ensures Valid()
      ensures hit ==> v.Some? && Found(old(nodes), old(chains), mount, ino, v.value)
      ensures hit ==> var node := old(nodes)[v.value];
        nodes == old(nodes)[v.value := node.(refcount := node.refcount + 1, cached := false)]
      ensures hit ==> lru == Without(old(lru), v.value)
      ensures !hit ==> NotFound(old(nodes), mount, ino) && v == room && lru == old(lru)
      ensures !hit && v.Some? ==> nodes == old(nodes)[v.value := Vnode(mount, ino, 1, false, false, false)]
      ensures !hit && v.None? ==> nodes == old(nodes)
    {
      hide Key, Ring, ChainOk, NodeOk;
      v := Find(mount, ino);
      if v.None? {
        if room.Some? {
          Added(nodes, chains, lru, count, room.value, mount, ino);
          nodes := nodes[room.value := Vnode(mount, ino, 1, false, false, false)];
        }
        return room, false;
      }
      Take(v.value);
      return v, true;
    }

    method Take(v: int)
      requires Valid() && v in nodes && nodes[v].inHash
      modifies this`nodes, this`next, this`prev, this`lru
      ensures Valid()
      ensures nodes == old(nodes)[v := old(nodes)[v].(refcount := old(nodes)[v].refcount + 1, cached := false)]
      ensures lru == Without(old(lru), v)
    {
      hide Key, Ring, Inv, NoDuplicates, Without;
      Facts(v);
      ghost var node := nodes[v].(refcount := nodes[v].refcount + 1, cached := false);
      WithoutMembers(lru, v);
      Counted(nodes, chains, lru, count, v, node, Without(lru, v));
      if nodes[v].cached {
        LruUnlink(v);
      } else {
        WithoutAbsent(lru, v);
      }
      nodes := nodes[v := nodes[v].(cached := false)];
      nodes := nodes[v := nodes[v].(refcount := nodes[v].refcount + 1)];
      assert nodes == old(nodes)[v := node];
    }

    /** vnode_ref, by someone who already holds a reference. */
    method Ref(v: int)
      requires Valid() && v in nodes && nodes[v].refcount > 0
      modifies this`nodes
      ensures Valid() && nodes == old(nodes)[v := old(nodes)[v].(refcount := old(nodes)[v].refcount + 1)]
    {
      hide Key, Ring, Inv;
      Facts(v);
      Counted(nodes, chains, lru, count, v, nodes[v].(refcount := nodes[v].refcount + 1), lru);
      nodes := nodes[v := nodes[v].(refcount := nodes[v].refcount + 1)];
    }

    /**
     vnode_unref by a holder of a reference: with the last one a hashed vnode goes to the front of
     the ring, which is then trimmed, and any other vnode is destroyed.
     */
    method Unref(v: int) returns (ghost k: nat)
      requires Valid() && v in nodes && nodes[v].refcount > 0
      modifies this
      ensures Valid()
      ensures old(nodes)[v].refcount > 1 ==> lru == old(lru)
      ensures old(nodes)[v].refcount > 1 ==>
        nodes == old(nodes)[v := old(nodes)[v].(refcount := old(nodes)[v].refcount - 1)]
      ensures old(nodes)[v].refcount == 1 && !old(nodes)[v].inHash ==> nodes == old(nodes) - {v} && lru == old(lru)
      ensures old(nodes)[v].refcount == 1 && old(nodes)[v].inHash ==>
        && k <= |old(lru)| + 1 && lru == ([v] + old(lru))[..k] && (k <= |old(lru)| ==> count >= MAX)
        && nodes == Evicted(old(nodes)[v := old(nodes)[v].(refcount := 0, cached := true)], ([v] + old(lru))[k..])
    {
      hide Key, Ring, Inv, Evicted, NoDuplicates;
      Facts(v);
      k := 0;
      var node := nodes[v].(refcount := nodes[v].refcount - 1);
      if node.refcount > 0 {
        Counted(nodes, chains, lru, count, v, node, lru);
        nodes := nodes[v := node];
      } else if !node.inHash {
        Unhashed(nodes, chains, lru, count, v);
        nodes := nodes[v := node];
        Unlinked(old(nodes), chains, lru, count, v);
        Destroy(v);
        assert nodes == old(nodes) - {v};
      } else {
        Counted(nodes, chains, lru, count, v, node.(cached := true), [v] + lru);
        nodes := nodes[v := node.(cached := true)];
        LruPush(v);
        k := Trim();
      }
    }

    /** vnode_cache_commit of a vnode that vnode_cache_get made on a miss. */
    method Commit(v: int) returns (ok: bool, ghost k: nat)
      requires Valid() && v in nodes && nodes[v].refcount > 0 && !nodes[v].inHash && !nodes[v].doomed
      modifies this
      ensures Valid()
      ensures ok <==> NotFound(old(nodes), old(nodes)[v].mount, old(nodes)[v].ino)
      ensures ok ==> k <= |old(lru)| && lru == old(lru)[..k] && (k < |old(lru)| ==> count >= MAX)
      ensures ok ==> nodes == Evicted(old(nodes)[v := old(nodes)[v].(inHash := true)], old(lru)[k..])
      ensures ok ==> v in nodes && nodes[v].inHash
      ensures !ok ==> lru == old(lru)
      ensures !ok && old(nodes)[v].refcount == 1 ==> nodes == old(nodes) - {v}
      ensures !ok && old(nodes)[v].refcount > 1 ==>
        nodes == old(nodes)[v := old(nodes)[v].(refcount := old(nodes)[v].refcount - 1)]
    {
      hide Key, Ring, Inv, NoDuplicates, ChainsOk;
      Facts(v);
      var other := Find(nodes[v].mount, nodes[v].ino);
      if other.Some? {
        k := Unref(v);
        return false, k;
      }
      Committed(nodes, chains, lru, count, v);
      var b := Key(nodes[v].mount, nodes[v].ino);
      chains := chains[b := [v] + chains[b]];
      nodes := nodes[v := nodes[v].(inHash := true)];
      count := count + 1;
      k := Trim();
      ok := true;
    }

    /** vnode_cache_invalidate. */
    method Invalidate(mount: int, ino: int)
      requires Valid()
      modifies this
      ensures Valid() && NotFound(nodes, mount, ino)
      ensures NotFound(old(nodes), mount, ino) ==> nodes == old(nodes) && lru == old(lru)
      ensures forall v :: v in old(nodes) && old(nodes)[v].inHash && SameKey(old(nodes)[v], mount, ino) ==>
        nodes == Dropped(old(nodes), {v}) && lru == Without(old(lru), v)
    {
      var found := Find(mount, ino);
      if found.Some? {
        forall v | v in nodes && nodes[v].inHash && SameKey(nodes[v], mount, ino) ensures v == found.value {
          KeyUnique(nodes, chains, lru, count, v, found.value);
        }
        Drop(found.value);
      }
    }

    /** No member of the first chains is on the mount. */
    ghost predicate Swept(nodes0: Nodes, mount: int, n: nat)
      reads this
    {
      n <= |chains| && forall x, v :: 0 <= x < n && v in chains[x] ==> v in nodes0 && nodes0[v].mount != mount
    }

    /** The state of a flush that has dropped `gone`. */
    ghost predicate Flushing(nodes0: Nodes, lru0: seq<int>, gone: set<int>)
      reads this
    {
      Core() && nodes == Dropped(nodes0, gone) && lru == Keep(lru0, gone) && NoDuplicates(lru0)
    }

    lemma {:induction false} ChainMember(b: nat, i: nat)
      requires Core() && b < BUCKETS && i < |chains[b]|
      ensures var v := chains[b][i]; v in nodes && nodes[v].inHash && Key(nodes[v].mount, nodes[v].ino) == b
      ensures NoDuplicates(chains[b])
    {
      hide Key;
      assert ChainOk(chains[b], b, nodes) && chains[b][i] in chains[b];
    }

    method DropAt(b: nat, i: nat)
      requires Core() && |chains| == BUCKETS && b < BUCKETS && i < |chains[b]|
      modifies this
      ensures Core() && count == old(count) - 1
      ensures nodes == Dropped(old(nodes), {old(chains)[b][i]}) && lru == Without(old(lru), old(chains)[b][i])
      ensures chains == old(chains)[b := old(chains)[b][..i] + old(chains)[b][i + 1..]]
    {
      hide Key, Ring, Inv, NoDuplicates, Dropped, Without;
      ChainMember(b, i);
      WithoutAt(chains[b], i);
      Drop(chains[b][i]);
    }

    /** One chain of vnode_cache_flush_mount. */
    method FlushChain(mount: int, b: nat, ghost nodes0: Nodes, ghost lru0: seq<int>, ghost gone0: set<int>)
      returns (ghost gone: set<int>)
      requires |chains| == BUCKETS && b < BUCKETS && Flushing(nodes0, lru0, gone0)
      requires gone0 <= HashedOn(nodes0, mount) && Swept(nodes0, mount, b)
      modifies this
      ensures |chains| == BUCKETS && Flushing(nodes0, lru0, gone) && count <= old(count)
      ensures gone <= HashedOn(nodes0, mount) && Swept(nodes0, mount, b + 1)
    {
      hide Key, Ring, Inv, NoDuplicates, Dropped, Without, Keep;
      gone := gone0;
      var i: nat := 0;
      while i < |chains[b]|
        invariant |chains| == BUCKETS && Flushing(nodes0, lru0, gone) && count <= old(count)
        invariant gone <= HashedOn(nodes0, mount) && Swept(nodes0, mount, b)
        invariant i <= |chains[b]|
        invariant forall v :: v in chains[b][..i] ==> v in nodes0 && nodes0[v].mount != mount
        decreases |chains[b]| - i
      {
        var v := chains[b][i];
        ChainMember(b, i);
        DroppedAnother(nodes0, gone, v);
        if nodes[v].mount != mount {
          assert chains[b][..i + 1] == chains[b][..i] + [v];
          i := i + 1;
        } else {
          KeepOneLess(lru0, gone, v);
          ghost var done := chains[b][..i];
          DropAt(b, i);
          assert chains[b][..i] == done;
          gone := gone + {v};
        }
      }
      assert chains[b][..i] == chains[b];
    }

    /**
     vnode_cache_flush_mount: the mount's vnodes leave the hash, unreferenced ones are destroyed and the
     others doomed, and the ring keeps its order.
     */
    method FlushMount(mount: int)
      requires Valid()
      modifies this
      ensures Valid() && HashedOn(nodes, mount) == {}
      ensures nodes == Dropped(old(nodes), HashedOn(old(nodes), mount)) &&
        lru == Keep(old(lru), HashedOn(old(nodes), mount))
    {
      hide Key, Ring, Inv, NoDuplicates, Without;
      ghost var gone: set<int> := {};
      FlushStarts();
      var b: nat := 0;
      while b < BUCKETS
        invariant b <= BUCKETS == |chains| && Flushing(old(nodes), old(lru), gone) && count <= old(count)
        invariant gone <= HashedOn(old(nodes), mount) && Swept(old(nodes), mount, b)
      {
        gone := FlushChain(mount, b, old(nodes), old(lru), gone);
        b := b + 1;
      }
      FlushEnds(mount, old(nodes), old(lru), gone);
    }

    lemma {:induction false} FlushStarts()
      requires Core()
      ensures |chains| == BUCKETS && Flushing(nodes, lru, {}) && forall mount :: Swept(nodes, mount, 0)
    {
      KeepAll(lru);
    }

    lemma {:induction false} FlushEnds(mount: int, nodes0: Nodes, lru0: seq<int>, gone: set<int>)
      requires Flushing(nodes0, lru0, gone) && gone <= HashedOn(nodes0, mount) && Swept(nodes0, mount, BUCKETS)
      ensures gone == HashedOn(nodes0, mount) && HashedOn(nodes, mount) == {}
    {
      hide Key;
      forall v | v in nodes && nodes[v].inHash
        ensures nodes[v].mount != mount
      {
        assert NodeOk(v, nodes[v], chains, lru);
      }
      forall v | v in HashedOn(nodes0, mount)
        ensures v in gone
      {
        assert v in gone || v in Dropped(nodes0, gone);
      }
    }
  }
}
