/**
 The write-back block cache: 128 buckets of 4 ways in front of leaf block devices.  Device
 reads and writes may fail at any time, and a failed write may leave anything in its block.
 `View` is the array of blocks a caller believes in.
 */
module BlockCache {

  const BUCKETS := 128
  const WAYS := 4
  const SLOTS := 512
  const BLOCK := 4096
  const U64 := 0x1_0000_0000_0000_0000

  type Byte = x: int | 0 <= x < 256
  type Block = seq<Byte>

  datatype Option<+T> = None | Some(value: T)

  /** A registered device: identity, hash key and block size. */
  datatype Device = Device(id: nat, key: bv32, blockSize: nat)

  datatype Key = Key(dev: Device, lba: nat)

  datatype Slot = Slot(key: Option<Key>, data: Block, refs: nat, populated: bool, dirty: bool)

  type Disk = Key -> Block

  const ZEROS: Block := seq(BLOCK, _ => 0)
  const EMPTY := Slot(None, ZEROS, 0, false, false)

  /** A device block has its device's block size. */
  ghost predicate Sized(disk: Disk) {
    forall k: Key :: |disk(k)| == k.dev.blockSize
  }

  /** The block `i` places after `lba`, in 64-bit arithmetic. */
  function KeyAt(dev: Device, lba: nat, i: nat): (k: Key)
    ensures lba + i < U64 ==> k == Key(dev, lba + i)
    ensures U64 <= lba + i < 2 * U64 ==> k == Key(dev, lba + i - U64)
  {
    Key(dev, (lba + i) % U64)
  }

  lemma {:induction false} KeysDistinct(dev: Device, lba: nat, i: nat, j: nat)
    requires i < j < U64
    ensures KeyAt(dev, lba, i) != KeyAt(dev, lba, j)
  {
    var q, r := (lba + i) / U64, (lba + j) / U64;
    assert j - i == U64 * (r - q) + (lba + j) % U64 - (lba + i) % U64;
  }

  predicate Cacheable(dev: Device) {
    dev.blockSize in {512, 1024, 2048, 4096}
  }

  function HashWord(key: bv32, low: bv32, high: bv32): bv32 {
    var h := key * 2654435761 ^ low ^ high;
    var h2 := h * 2654435761;
    var h3 := (h2 ^ (h2 >> 13)) * 2654435761;
    h3 ^ (h3 >> 16)
  }

  function Hash(k: Key): (b: nat)
    ensures b < BUCKETS
  {
    HashWord(k.dev.key, (k.lba % 0x1_0000_0000) as bv32,
             (k.lba / 0x1_0000_0000 % 0x1_0000_0000) as bv32) as nat % BUCKETS
  }

  /** The device bytes of a cached block. */
  function Content(s: Slot): Block
    requires s.key.Some? && s.key.value.dev.blockSize <= |s.data|
  {
    s.data[..s.key.value.dev.blockSize]
  }

  ghost predicate SlotOk(s: Slot, i: int, disk: Disk) {
    && |s.data| == BLOCK
    && (s.dirty ==> s.populated)
    && (s.populated ==> s.key.Some?)
    && (s.key.Some? ==> Cacheable(s.key.value.dev) && i / WAYS == Hash(s.key.value))
    && (s.populated && !s.dirty ==> Content(s) == disk(s.key.value))
  }

  /** Every slot sits in its bucket, clean data equals the device, no key is held twice. */
  ghost predicate Inv(slots: seq<Slot>, disk: Disk) {
    && |slots| == SLOTS
    && (forall i :: 0 <= i < SLOTS ==> SlotOk(slots[i], i, disk))
    && (forall i, j :: 0 <= i < j < SLOTS && slots[i].key.Some? ==> slots[i].key != slots[j].key)
  }

  ghost predicate Cached(slots: seq<Slot>, i: int, k: Key) {
    0 <= i < |slots| && slots[i].key == Some(k) && slots[i].populated
  }

  /** What a caller reads for block `k`. */
  ghost function View(slots: seq<Slot>, disk: Disk, k: Key): Block
    requires Inv(slots, disk)
  {
    if i :| Cached(slots, i, k) then Content(slots[i]) else disk(k)
  }

  lemma {:induction false} ViewOf(slots: seq<Slot>, disk: Disk, k: Key, i: int)
    requires Inv(slots, disk) && 0 <= i < SLOTS && slots[i].key == Some(k)
    ensures View(slots, disk, k) == if slots[i].populated then Content(slots[i]) else disk(k)
  {
    assert slots[i].populated ==> Cached(slots, i, k);
    assert forall j :: Cached(slots, j, k) ==> j == i;
  }

  lemma {:induction false} ViewUncached(slots: seq<Slot>, disk: Disk, k: Key)
    requires Inv(slots, disk) && forall i :: 0 <= i < SLOTS ==> slots[i].key != Some(k)
    ensures View(slots, disk, k) == disk(k)
  {
  }

  /** `slots` and `slots'` differ at most at `i`, the disks at most at `k`. */
  lemma {:induction false} SameElsewhere(slots: seq<Slot>, disk: Disk, slots': seq<Slot>, disk': Disk, i: int, k: Key)
    requires Inv(slots, disk) && Inv(slots', disk')
    requires 0 <= i < SLOTS && slots' == slots[i := slots'[i]]
    requires slots[i].key == Some(k) || slots[i] == slots'[i]
    requires slots'[i].key == Some(k) || slots[i] == slots'[i]
    requires forall l :: l != k ==> disk'(l) == disk(l)
    ensures forall l :: l != k ==> View(slots', disk', l) == View(slots, disk, l)
  {
    forall l | l != k
      ensures View(slots', disk', l) == View(slots, disk, l)
    {
      if j :| Cached(slots, j, l) {
        ViewOf(slots, disk, l, j);
        ViewOf(slots', disk', l, j);
      } else if j :| Cached(slots', j, l) {
        assert Cached(slots, j, l);
      }
    }
  }

  /* ---------------- the steps of the cache ---------------- */

  /** A written or freshly read block: slot `i` changes only in its data and flags. */
  lemma {:induction false} SetSlot(slots: seq<Slot>, disk: Disk, disk': Disk, i: int, k: Key, s: Slot)
    requires Inv(slots, disk)
    requires 0 <= i < SLOTS && slots[i].key == Some(k) && s.key == Some(k)
    requires SlotOk(s, i, disk') && forall l :: l != k ==> disk'(l) == disk(l)
    ensures Inv(slots[i := s], disk')
    ensures View(slots[i := s], disk', k) == if s.populated then Content(s) else disk'(k)
    ensures forall l :: l != k ==> View(slots[i := s], disk', l) == View(slots, disk, l)
  {
    var slots' := slots[i := s];
    assert Inv(slots', disk');
    ViewOf(slots', disk', k, i);
    SameElsewhere(slots, disk, slots', disk', i, k);
  }

  /** Reusing a clean slot for a block that is cached nowhere changes no view. */
  lemma {:induction false} Evict(slots: seq<Slot>, disk: Disk, i: int, k: Key, s: Slot)
    requires Inv(slots, disk)
    requires 0 <= i < SLOTS && !slots[i].dirty && i / WAYS == Hash(k) && Cacheable(k.dev)
    requires forall j :: 0 <= j < SLOTS ==> slots[j].key != Some(k)
    requires s.key == Some(k) && |s.data| == BLOCK && !s.populated && !s.dirty
    ensures Inv(slots[i := s], disk)
    ensures forall l :: View(slots[i := s], disk, l) == View(slots, disk, l)
  {
    var slots' := slots[i := s];
    forall l
      ensures View(slots', disk, l) == View(slots, disk, l)
    {
      if j :| Cached(slots', j, l) {
        assert Cached(slots, j, l);
        ViewOf(slots', disk, l, j);
        ViewOf(slots, disk, l, j);
      } else if j :| Cached(slots, j, l) {
        assert j != i ==> Cached(slots', j, l);
        ViewOf(slots, disk, l, j);
      }
    }
  }

  /** Writing past the cache, where block `k` is cached nowhere. */
  lemma {:induction false} Bypass(slots: seq<Slot>, disk: Disk, disk': Disk, k: Key)
    requires Inv(slots, disk)
    requires forall j :: 0 <= j < SLOTS ==> slots[j].key != Some(k)
    requires forall l :: l != k ==> disk'(l) == disk(l)
    ensures Inv(slots, disk')
    ensures View(slots, disk', k) == disk'(k)
    ensures forall l :: l != k ==> View(slots, disk', l) == View(slots, disk, l)
  {
    assert Inv(slots, disk');
    ViewUncached(slots, disk', k);
    SameElsewhere(slots, disk, slots, disk', 0, k);
  }

  /* ---------------- the code ---------------- */

  class Cache {
    const slots: array<Slot>
    var disk: Disk
    var enabled: bool

    /** How many device requests have failed. */
    ghost var faults: nat

    ghost predicate Valid()
      reads this`disk, this`enabled, slots
    {
      Inv(slots[..], disk) && Sized(disk) && (!enabled ==> forall i :: 0 <= i < SLOTS ==> slots[i] == EMPTY)
    }

    /** No slot is held: the state between two calls. */
    ghost predicate Idle()
      reads this`disk, this`enabled, slots
    {
      Valid() && forall i :: 0 <= i < SLOTS ==> slots[i].refs == 0
    }

    ghost function Sees(k: Key): Block
      requires Valid()
      reads this`disk, this`enabled, slots
    {
      View(slots[..], disk, k)
    }

    constructor (disk: Disk)
      requires Sized(disk)
      ensures Idle() && !enabled && fresh(slots)
      ensures forall k :: Sees(k) == disk(k)
    {
      slots := new Slot[SLOTS](_ => EMPTY);
      this.disk := disk;
      enabled := false;
      faults := 0;
      new;
      assert Inv(slots[..], disk);
    }

    /** One-block device read. */
    method DeviceRead(k: Key) returns (ok: bool, data: Block)
      modifies this`faults
      ensures ok ==> data == disk(k)
      ensures faults == old(faults) + if ok then 0 else 1
    {
      ok, data := *, disk(k);
      faults := faults + if ok then 0 else 1;
    }

    /** One-block device write; a failed write leaves the block undefined. */
    method DeviceWrite(k: Key, data: Block) returns (ok: bool)
      requires Sized(disk) && |data| == k.dev.blockSize
      modifies this`disk, this`faults
      ensures Sized(disk)
      ensures ok ==> disk(k) == data
      ensures faults == old(faults) + if ok then 0 else 1
      ensures forall l :: l != k ==> disk(l) == old(disk)(l)
    {
      ok := *;
      assert |seq(k.dev.blockSize, _ => 0 as Byte)| == k.dev.blockSize;
      var left: Block :| |left| == k.dev.blockSize;
      var before, now := disk, if ok then data else left;
      disk := l => if l == k then now else before(l);
      faults := faults + if ok then 0 else 1;
    }

    method Put(i: int, s: Slot)
      requires 0 <= i < slots.Length
      modifies slots
      ensures slots[..] == old(slots[..])[i := s]
    {
      slots[i] := s;
    }

    /** blk_cache_writeback: the slot stays dirty when the device fails. */
    method Writeback(i: int) returns (ok: bool)
      requires Valid() && 0 <= i < SLOTS && slots[i].dirty
      modifies this`disk, this`faults, slots
      ensures Valid()
      ensures forall k :: Sees(k) == old(Sees(k))
      ensures slots[..] == old(slots[..])[i := old(slots[i]).(dirty := !ok)]
      ensures faults == old(faults) + if ok then 0 else 1
      ensures forall k: Key :: k.dev != old(slots[i]).key.value.dev ==> disk(k) == old(disk)(k)
    {
      var s := slots[i];
      ghost var before := slots[..];
      ghost var was := disk;
      var k := s.key.value;
      ViewOf(before, disk, k, i);
      ok := DeviceWrite(k, Content(s));
      SetSlot(before, was, disk, i, k, s.(dirty := !ok));
      Put(i, s.(dirty := !ok));
    }

    /** Slot `i` is held once and holds the block `k`; no other slot is held. */
    ghost predicate Holds(i: int, k: Key)
      reads this`disk, this`enabled, slots
    {
      && Valid() && 0 <= i < SLOTS && slots[i].key == Some(k) && slots[i].refs == 1
      && forall j :: 0 <= j < SLOTS && j != i ==> slots[j].refs == 0
    }

    /** The hit loop of blk_cache_get. */
    method Lookup(k: Key) returns (i: int)
      requires Idle()
      ensures i == -1 ==> forall j :: 0 <= j < SLOTS ==> slots[j].key != Some(k)
      ensures i != -1 ==> 0 <= i < SLOTS && slots[i].key == Some(k)
    {
      var base := Hash(k) * WAYS;
      for w := 0 to WAYS
        invariant forall j :: base <= j < base + w ==> slots[j].key != Some(k)
      {
        if slots[base + w].key == Some(k) {
          return base + w;
        }
      }
      assert forall j :: 0 <= j < SLOTS && slots[j].key == Some(k) ==> j / WAYS == Hash(k) by {
        assert forall j :: 0 <= j < SLOTS ==> slots[j] == slots[..][j];
      }
      return -1;
    }

    /** The victim loops of blk_cache_get: a clean free way, failing that a dirty one. */
    method Victim(base: int) returns (v: int)
      requires Idle() && 0 <= base <= SLOTS - WAYS
      ensures base <= v < base + WAYS
      ensures slots[v].dirty ==> forall j :: base <= j < base + WAYS ==> slots[j].dirty
    {
      v := -1;
      for w := 0 to WAYS
        invariant v == -1 ==> forall j :: base <= j < base + w ==> slots[j].dirty
        invariant v != -1 ==> base <= v < base + w && !slots[v].dirty
      {
        if v == -1 && slots[base + w].refs == 0 && !slots[base + w].dirty {
          v := base + w;
        }
      }
      if v == -1 {
        for w := 0 to WAYS
          invariant v == -1 ==> w == 0
          invariant v != -1 ==> base <= v < base + WAYS
        {
          if v == -1 && slots[base + w].refs == 0 {
            v := base + w;
          }
        }
      }
    }

    /** blk_cache_get: a held slot for block `k`, or -1 when the victim cannot be cleaned. */
    method Get(k: Key) returns (i: int)
      requires Idle() && enabled && Cacheable(k.dev)
      modifies this`disk, this`faults, slots
      ensures Valid()
      ensures forall l :: Sees(l) == old(Sees(l))
      ensures i == -1 ==> Idle() && forall j :: 0 <= j < SLOTS ==> slots[j].key != Some(k)
      ensures i != -1 ==> Holds(i, k)
      ensures faults >= old(faults) && (i == -1 ==> faults > old(faults))
    {
      hide View, Hash;
      i := Lookup(k);
      if i != -1 {
        Hold(i, k);
        return;
      }
      i := Vacate(k);
      if i != -1 {
        Claim(i, k);
      }
    }

    /** The slot to reuse, written back first if it is dirty. */
    method Vacate(k: Key) returns (v: int)
      requires Idle() && forall j :: 0 <= j < SLOTS ==> slots[j].key != Some(k)
      modifies this`disk, this`faults, slots
      ensures Idle() && forall j :: 0 <= j < SLOTS ==> slots[j].key != Some(k)
      ensures forall l :: Sees(l) == old(Sees(l))
      ensures v != -1 ==> 0 <= v < SLOTS && v / WAYS == Hash(k) && !slots[v].dirty
      ensures faults >= old(faults) && (v == -1 ==> faults > old(faults))
    {
      hide View, Hash;
      v := Victim(Hash(k) * WAYS);
      if slots[v].dirty {
        var _ := Writeback(v);
        if slots[v].refs != 0 || slots[v].dirty {
          return -1;
        }
      }
    }

    /** A hit: one more holder. */
    method Hold(i: int, k: Key)
      requires Idle() && enabled && Cacheable(k.dev) && 0 <= i < SLOTS && slots[i].key == Some(k)
      modifies slots
      ensures Valid() && Holds(i, k) && forall l :: Sees(l) == old(Sees(l))
    {
      ghost var before := slots[..];
      var s := slots[i];
      ViewOf(before, disk, k, i);
      SetSlot(before, disk, disk, i, k, s.(refs := s.refs + 1));
      Put(i, s.(refs := s.refs + 1));
    }

    method Claim(v: int, k: Key)
      requires Idle() && enabled && Cacheable(k.dev) && 0 <= v < SLOTS && v / WAYS == Hash(k) && !slots[v].dirty
      requires forall j :: 0 <= j < SLOTS ==> slots[j].key != Some(k)
      modifies slots
      ensures Holds(v, k)
      ensures forall l :: Sees(l) == old(Sees(l))
    {
      ghost var before := slots[..];
      var s := Slot(Some(k), ZEROS, 1, false, false);
      Evict(before, disk, v, k, s);
      Put(v, s);
    }

    /** blk_cache_release. */
    method Release(i: int, k: Key)
      requires Holds(i, k) && enabled
      modifies slots
      ensures Idle()
      ensures forall l :: Sees(l) == old(Sees(l))
    {
      ghost var before := slots[..];
      var s := slots[i];
      ViewOf(before, disk, k, i);
      SetSlot(before, disk, disk, i, k, s.(refs := s.refs - 1));
      Put(i, s.(refs := s.refs - 1));
    }

    /** One round of the loop in blk_read. */
    method ReadOne(k: Key) returns (ok: bool, data: Block)
      requires Idle() && enabled && Cacheable(k.dev)
      modifies this`disk, this`faults, slots
      ensures Idle()
      ensures forall l :: Sees(l) == old(Sees(l))
      ensures ok ==> data == Sees(k)
      ensures faults >= old(faults) && (!ok ==> faults > old(faults))
    {
      var i := Get(k);
      if i == -1 {
        ViewUncached(slots[..], disk, k);
        ok, data := DeviceRead(k);
        return;
      }
      ok := true;
      if !slots[i].populated {
        ok := Fill(i, k);
      }
      ViewOf(slots[..], disk, k, i);
      data := Content(slots[i]);
      Release(i, k);
    }

    method Fill(i: int, k: Key) returns (ok: bool)
      requires Holds(i, k) && enabled && !slots[i].populated
      modifies this`faults, slots
      ensures Holds(i, k) && slots[i].populated == ok
      ensures faults == old(faults) + if ok then 0 else 1
      ensures forall l :: Sees(l) == old(Sees(l))
    {
      var data;
      ok, data := DeviceRead(k);
      if ok {
        ghost var before := slots[..];
        var s := slots[i];
        var filled := s.(data := data + s.data[|data|..], populated := true);
        ViewOf(before, disk, k, i);
        SetSlot(before, disk, disk, i, k, filled);
        Put(i, filled);
      }
    }

    /** blk_cache_init: the slots may not be had, and then the cache stays off. */
    method Init(canAlloc: bool)
      requires Idle()
      modifies this`enabled
      ensures Idle() && (enabled <==> old(enabled) || canAlloc)
      ensures forall l :: Sees(l) == old(Sees(l))
    {
      if !enabled && canAlloc {
        enabled := true;
      }
    }

    lemma {:induction false} SeesDisk(k: Key)
      requires Idle() && (!enabled || !Cacheable(k.dev))
      ensures Sees(k) == disk(k)
    {
      assert forall i :: 0 <= i < SLOTS ==> slots[..][i] == slots[i];
      ViewUncached(slots[..], disk, k);
    }

    /**
     blk_read.  On success the buffer holds the blocks the caller believes in; success or not,
     reading changes no block.
     */
    method BlkRead(dev: Device, lba: nat, count: nat, canAlloc: bool) returns (ok: bool, buf: seq<Block>)
      requires Idle() && count < U64
      modifies this, slots
      ensures Idle()
      ensures forall l :: Sees(l) == old(Sees(l))
      ensures ok ==> |buf| == count && forall i :: 0 <= i < count ==> buf[i] == Sees(KeyAt(dev, lba, i))
      ensures !ok ==> faults > old(faults)
    {
      buf := [];
      if count == 0 {
        return true, [];
      }
      if Cacheable(dev) {
        Init(canAlloc);
      }
      if !Cacheable(dev) || !enabled {
        ok, buf := *, seq(count, i requires 0 <= i < count reads this => disk(KeyAt(dev, lba, i)));
        faults := faults + if ok then 0 else 1;
        forall i | 0 <= i < count
          ensures buf[i] == Sees(KeyAt(dev, lba, i))
        {
          SeesDisk(KeyAt(dev, lba, i));
        }
        return;
      }
      for i := 0 to count
        invariant Idle() && enabled
        invariant forall l :: Sees(l) == old(Sees(l))
        invariant faults >= old(faults)
        invariant |buf| == i && forall j :: 0 <= j < i ==> buf[j] == Sees(KeyAt(dev, lba, j))
      {
        var data;
        ok, data := ReadOne(KeyAt(dev, lba, i));
        if !ok {
          return;
        }
        buf := buf + [data];
      }
      ok := true;
    }

    /** One round of the loop in blk_write; a failed one leaves only block `k` in doubt. */
    method WriteOne(k: Key, src: Block) returns (ok: bool)
      requires Idle() && enabled && Cacheable(k.dev) && |src| == k.dev.blockSize
      modifies this`disk, this`faults, slots
      ensures Idle()
      ensures ok ==> Sees(k) == src
      ensures forall l :: l != k ==> Sees(l) == old(Sees(l))
      ensures faults >= old(faults) && (!ok ==> faults > old(faults))
    {
      var i := Get(k);
      if i == -1 {
        ghost var was := disk;
        ok := DeviceWrite(k, src);
        Bypass(slots[..], was, disk, k);
        return;
      }
      ok := true;
      Dirty(i, k, src);
      Release(i, k);
    }

    method Dirty(i: int, k: Key, src: Block)
      requires Holds(i, k) && enabled && |src| == k.dev.blockSize
      modifies slots
      ensures Holds(i, k) && Sees(k) == src
      ensures forall l :: l != k ==> Sees(l) == old(Sees(l))
    {
      ghost var before := slots[..];
      var s := slots[i];
      var written := s.(data := src + s.data[|src|..], populated := true, dirty := true);
      SetSlot(before, disk, disk, i, k, written);
      Put(i, written);
    }

    /** Uncached write of `src`: all blocks, or on failure anything in the blocks of the range. */
    method WriteThrough(dev: Device, lba: nat, src: seq<Block>) returns (ok: bool)
      requires Idle() && (!enabled || !Cacheable(dev)) && |src| < U64
      requires forall i :: 0 <= i < |src| ==> |src[i]| == dev.blockSize
      modifies this`disk, this`faults
      ensures Idle() && (!ok ==> faults > old(faults))
      ensures ok ==> forall i :: 0 <= i < |src| ==> Sees(KeyAt(dev, lba, i)) == src[i]
      ensures forall l :: (forall i :: 0 <= i < |src| ==> l != KeyAt(dev, lba, i)) ==> Sees(l) == old(Sees(l))
    {
      ok := true;
      for i := 0 to |src|
        invariant Idle() && faults >= old(faults) && (!ok ==> faults > old(faults))
        invariant ok ==> forall j :: 0 <= j < i ==> Sees(KeyAt(dev, lba, j)) == src[j]
        invariant forall l :: (forall j :: 0 <= j < |src| ==> l != KeyAt(dev, lba, j)) ==> Sees(l) == old(Sees(l))
      {
        ghost var was := disk;
        var k := KeyAt(dev, lba, i);
        assert forall j :: 0 <= j < SLOTS ==> slots[..][j] == slots[j];
        var good := DeviceWrite(k, src[i]);
        Bypass(slots[..], was, disk, k);
        ok := ok && good;
        forall j | 0 <= j < i
          ensures KeyAt(dev, lba, j) != k
        {
          KeysDistinct(dev, lba, j, i);
        }
      }
    }

    /**
     blk_write.  On success the range reads back as written; on failure the first `n` blocks do,
     block `n` is in doubt (for an uncached device, the whole range), and nothing else changed.
     */
    method BlkWrite(dev: Device, lba: nat, src: seq<Block>, canAlloc: bool) returns (ok: bool, ghost n: nat)
      requires Idle() && |src| < U64
      requires forall i :: 0 <= i < |src| ==> |src[i]| == dev.blockSize
      modifies this, slots
      ensures Idle() && n <= |src|
      ensures ok ==> n == |src|
      ensures !ok ==> faults > old(faults)
      ensures forall i :: 0 <= i < n ==> Sees(KeyAt(dev, lba, i)) == src[i]
      ensures forall l :: (forall i :: 0 <= i < |src| ==> l != KeyAt(dev, lba, i)) ==> Sees(l) == old(Sees(l))
      ensures !ok && enabled && Cacheable(dev) ==>
        forall i :: n < i < |src| ==> Sees(KeyAt(dev, lba, i)) == old(Sees(KeyAt(dev, lba, i)))
    {
      n := 0;
      if |src| == 0 {
        return true, 0;
      }
      if Cacheable(dev) {
        Init(canAlloc);
      }
      if !Cacheable(dev) || !enabled {
        ok := WriteThrough(dev, lba, src);
        n := if ok then |src| else 0;
        return;
      }
      for i := 0 to |src|
        invariant Idle() && enabled && n == i && faults >= old(faults)
        invariant forall j :: 0 <= j < i ==> Sees(KeyAt(dev, lba, j)) == src[j]
        invariant forall l :: (forall j :: 0 <= j < i ==> l != KeyAt(dev, lba, j)) ==> Sees(l) == old(Sees(l))
      {
        var k := KeyAt(dev, lba, i);
        forall j | 0 <= j < |src| && j != i
          ensures KeyAt(dev, lba, j) != k
        {
          KeysDistinct(dev, lba, if j < i then j else i, if j < i then i else j);
        }
        ok := WriteOne(k, src[i]);
        if !ok {
          forall j | i < j < |src|
            ensures Sees(KeyAt(dev, lba, j)) == old(Sees(KeyAt(dev, lba, j)))
          {
            forall m | 0 <= m < i
              ensures KeyAt(dev, lba, m) != KeyAt(dev, lba, j)
            {
              KeysDistinct(dev, lba, m, j);
            }
          }
          return;
        }
        n := i + 1;
      }
      ok := true;
    }

    /** blk_sync: no view changes, and success makes the device equal the view. */
    method BlkSync(dev: Device) returns (ok: bool)
      requires Idle()
      modifies this`disk, this`faults, slots
      ensures Idle()
      ensures forall l :: Sees(l) == old(Sees(l))
      ensures ok ==> forall lba: nat :: disk(Key(dev, lba)) == Sees(Key(dev, lba))
      ensures ok <==> faults == old(faults)
      ensures forall k: Key :: k.dev != dev ==> disk(k) == old(disk)(k)
    {
      ok := true;
      if enabled {
        ok := SyncSlots(dev);
      }
      if ok {
        forall lba: nat
          ensures disk(Key(dev, lba)) == Sees(Key(dev, lba))
        {
          CleanSees(Key(dev, lba));
        }
      }
    }

    method SyncSlots(dev: Device) returns (ok: bool)
      requires Idle() && enabled
      modifies this`disk, this`faults, slots
      ensures Idle()
      ensures forall l :: Sees(l) == old(Sees(l))
      ensures ok ==> forall j :: 0 <= j < SLOTS && slots[j].key.Some? && slots[j].key.value.dev == dev ==>
        !slots[j].dirty
      ensures ok <==> faults == old(faults)
      ensures forall k: Key :: k.dev != dev ==> disk(k) == old(disk)(k)
    {
      hide View, SlotOk, Hash;
      ok := true;
      for i := 0 to SLOTS
        invariant Idle() && enabled
        invariant forall l :: Sees(l) == old(Sees(l))
        invariant faults >= old(faults) && (ok <==> faults == old(faults))
        invariant ok ==> forall j :: 0 <= j < i && slots[j].key.Some? && slots[j].key.value.dev == dev ==>
          !slots[j].dirty
        invariant forall k: Key :: k.dev != dev ==> disk(k) == old(disk)(k)
      {
        if slots[i].key.Some? && slots[i].key.value.dev == dev && slots[i].dirty {
          var good := Writeback(i);
          ok := ok && good;
        }
      }
    }

    lemma {:induction false} CleanSees(k: Key)
      requires Valid()
      requires forall j :: 0 <= j < SLOTS && slots[j].key == Some(k) ==> !slots[j].dirty
      ensures Sees(k) == disk(k)
    {
      var all := slots[..];
      if i :| 0 <= i < SLOTS && all[i].key == Some(k) {
        ViewOf(all, disk, k, i);
      } else {
        ViewUncached(all, disk, k);
      }
    }
  }
}
