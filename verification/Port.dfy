/**
 IPC ports: a ring of messages that doubles when full, and capabilities that travel with a
 message out of the recorded sender's space into the receiver's.
 */
module Port {
  import opened CSpace

  const MIN_QUEUE := 16
  const MAX_QUEUE := 2048
  const DATA_SIZE := 64
  const DISPOSE_MAX := 4

  type Byte = x: int | 0 <= x < 256

  datatype Disposal = Disposal(kind: nat, rights: nat, handle: nat)

  /** ipc_msg_t: fixed arrays, of which only the first dataSize and ndispose places count. */
  datatype Message = Message(id: nat, dataSize: nat, data: seq<Byte>, ndispose: nat, dispose: seq<Disposal>)

  ghost predicate Formed(m: Message) {
    |m.data| == DATA_SIZE && |m.dispose| == DISPOSE_MAX
  }

  /** What a message carries: at most 64 data bytes and 4 disposals. */
  datatype Packet = Packet(id: nat, data: seq<Byte>, disposals: seq<Disposal>)

  function Min(a: nat, b: nat): nat {
    if a < b then a else b
  }

  function Carried(m: Message): Packet
    requires Formed(m)
  {
    Packet(m.id, m.data[..Min(m.dataSize, DATA_SIZE)], m.dispose[..Min(m.ndispose, DISPOSE_MAX)])
  }

  /** A queue place: the message and the task id recorded when it was sent. */
  datatype Place = Place(msg: Message, sender: nat)

  datatype Item = Item(packet: Packet, sender: nat)

  /* ---------------- the ring ---------------- */

  /** Ring arithmetic: one turn at most. */
  function Mod(x: nat, n: nat): (r: nat)
    requires n > 0
    ensures r < n
    ensures x < n ==> r == x
    ensures n <= x < 2 * n ==> r == x - n
  {
    Wraps(x, n);
    x % n
  }

  lemma {:induction false} Wraps(x: nat, n: nat)
    requires n > 0
    ensures x < n ==> x % n == x
    ensures n <= x < 2 * n ==> x % n == x - n
  {
    if n <= x < 2 * n {
      assert x == n * 1 + (x - n);
    }
  }

  ghost predicate Ring(queue: seq<Place>, head: nat, tail: nat, count: nat) {
    && |queue| in {16, 32, 64, 128, 256, 512, 1024, 2048}
    && head < |queue| && tail < |queue| && count <= |queue|
    && tail == Mod(head + count, |queue|)
    && forall i :: 0 <= i < |queue| ==> Formed(queue[i].msg)
  }

  function ItemOf(p: Place): Item
    requires Formed(p.msg)
  {
    Item(Carried(p.msg), p.sender)
  }

  /** The queued items, oldest first. */
  ghost function Items(queue: seq<Place>, head: nat, count: nat): seq<Item>
    requires |queue| > 0 && forall i :: 0 <= i < |queue| ==> Formed(queue[i].msg)
  {
    seq(count, i requires 0 <= i < count => ItemOf(queue[Mod(head + i, |queue|)]))
  }

  /** Writing at the tail of a ring with room adds one item at the end. */
  lemma {:induction false} Enqueued(queue: seq<Place>, head: nat, tail: nat, count: nat, p: Place)
    requires Ring(queue, head, tail, count) && count < |queue| && Formed(p.msg)
    ensures Ring(queue[tail := p], head, Mod(tail + 1, |queue|), count + 1)
    ensures Items(queue[tail := p], head, count + 1) == Items(queue, head, count) + [ItemOf(p)]
  {
    hide Mod;
    var q := queue[tail := p];
    var a, b := Items(q, head, count + 1), Items(queue, head, count) + [ItemOf(p)];
    forall i | 0 <= i < |a|
      ensures a[i] == b[i]
    {
      assert i < count ==> Mod(head + i, |queue|) != tail;
    }
  }

  /** Reading at the head removes the oldest item. */
  lemma {:induction false} Dequeued(queue: seq<Place>, head: nat, tail: nat, count: nat)
    requires Ring(queue, head, tail, count) && count > 0
    ensures Ring(queue, Mod(head + 1, |queue|), tail, count - 1)
    ensures Items(queue, head, count) == [ItemOf(queue[head])] + Items(queue, Mod(head + 1, |queue|), count - 1)
  {
    hide Mod;
    var first := Mod(head + 1, |queue|);
    var a, b := Items(queue, head, count), [ItemOf(queue[head])] + Items(queue, first, count - 1);
    forall i | 0 <= i < |a|
      ensures a[i] == b[i]
    {
      assert Mod(head + i, |queue|) == if i == 0 then head else Mod(first + (i - 1), |queue|);
    }
  }

  /** A longer ring holding the items from index 0 on holds the same items. */
  lemma {:induction false} Linearised(queue: seq<Place>, head: nat, tail: nat, count: nat, bigger: seq<Place>)
    requires Ring(queue, head, tail, count) && |bigger| == 2 * |queue| <= MAX_QUEUE
    requires forall i :: 0 <= i < |bigger| ==> Formed(bigger[i].msg)
    requires forall i :: 0 <= i < count ==> bigger[i] == queue[Mod(head + i, |queue|)]
    ensures Ring(bigger, 0, count, count)
    ensures Items(bigger, 0, count) == Items(queue, head, count)
  {
    hide Mod;
    var a, b := Items(bigger, 0, count), Items(queue, head, count);
    forall i | 0 <= i < |a|
      ensures a[i] == b[i]
    {
      assert Mod(0 + i, |bigger|) == i;
    }
  }

  /* ---------------- the port ---------------- */

  datatype SendResult = Sent | Invalid | QueueFull

  datatype RecvResult = Received(item: Item) | Notified | Empty

  /** A message from a task that still exists; sender 0 stands for the kernel. */
  predicate FromTask(r: RecvResult, tasks: map<nat, Space>) {
    r.Received? && r.item.sender != 0 && r.item.sender in tasks
  }

  class IpcPort {
    var queue: seq<Place>
    var head: nat
    var tail: nat
    var count: nat
    var notified: bool

    ghost predicate Valid()
      reads this
    {
      Ring(queue, head, tail, count)
    }

    ghost function Contents(): seq<Item>
      requires Valid()
      reads this
    {
      Items(queue, head, count)
    }

    /** port_create. */
    constructor (blank: Message)
      requires Formed(blank)
      ensures Valid() && Contents() == [] && !notified && |queue| == MIN_QUEUE
    {
      queue := seq(MIN_QUEUE, _ => Place(blank, 0));
      head, tail, count, notified := 0, 0, 0, false;
    }

    /** port_grow_queue: double the ring and lay the messages out from index 0. */
    method GrowQueue(canAlloc: bool) returns (ok: bool)
      requires Valid() && count == |queue|
      modifies this
      ensures Valid() && Contents() == old(Contents()) && notified == old(notified) && count == old(count)
      ensures ok ==> |queue| == 2 * old(|queue|)
      ensures !ok ==> |queue| == old(|queue|)
      ensures ok <==> old(|queue|) < MAX_QUEUE && canAlloc
    {
      var size := |queue| * 2;
      if size > MAX_QUEUE || !canAlloc {
        return false;
      }
      var blank := queue[0];
      var bigger := seq(size, _ => blank);
      for i := 0 to count
        invariant |bigger| == size && forall k :: 0 <= k < size ==> Formed(bigger[k].msg)
        invariant forall k :: 0 <= k < i ==> bigger[k] == queue[Mod(head + k, |queue|)]
      {
        bigger := bigger[i := queue[Mod(head + i, |queue|)]];
      }
      Linearised(queue, head, tail, count, bigger);
      queue, head, tail := bigger, 0, count;
      return true;
    }

    /** The place port_send writes: over the old place, only the counted bytes are copied. */
    static function Copied(was: Message, m: Message): Message
      requires Formed(was) && Formed(m)
    {
      var size, n := Min(m.dataSize, DATA_SIZE), Min(m.ndispose, DISPOSE_MAX);
      Message(m.id, size, m.data[..size] + was.data[size..], n, m.dispose[..n] + was.dispose[n..])
    }

    /**
     port_send.  A message that disposes of nothing the sender lacks joins the end of the
     queue; the queue is full only at 2048 messages or when no memory is to be had.
     */
    method Send(m: Message, sender: Option<Sender>, canAlloc: bool) returns (r: SendResult)
      requires Valid() && Formed(m) && (sender.Some? ==> sender.value.space.Valid())
      modifies this
      ensures Valid() && notified == old(notified)
      ensures r.Invalid? <==> !Disposable(m, sender)
      ensures r.Sent? ==> Contents() == old(Contents()) + [Item(Carried(m), SenderId(sender))]
      ensures !r.Sent? ==> Contents() == old(Contents())
      ensures r.QueueFull? <==>
        Disposable(m, sender) && old(|Contents()|) == old(|queue|) && (old(|Contents()|) == MAX_QUEUE || !canAlloc)
    {
      var ok := ValidateDispose(m, sender);
      if !ok {
        return Invalid;
      }
      if count >= |queue| {
        ok := GrowQueue(canAlloc);
        if !ok {
          return QueueFull;
        }
      }
      var p := Place(Copied(queue[tail].msg, m), SenderId(sender));
      CarriedCopy(queue[tail].msg, m);
      Enqueued(queue, head, tail, count, p);
      queue := queue[tail := p];
      tail := Mod(tail + 1, |queue|);
      count := count + 1;
      return Sent;
    }

    static lemma {:induction false} CarriedCopy(was: Message, m: Message)
      requires Formed(was) && Formed(m)
      ensures Formed(Copied(was, m)) && Carried(Copied(was, m)) == Carried(m)
    {
    }

    /** The queue part of port_recv: a queued message first, a notification only when none is. */
    method Dequeue() returns (r: RecvResult)
      requires Valid()
      modifies this
      ensures Valid()
      ensures r.Received? <==> old(Contents()) != []
      ensures r.Received? ==> old(Contents()) == [r.item] + Contents() && notified == old(notified)
      ensures !r.Received? ==> Contents() == [] && !notified && (r.Notified? <==> old(notified))
    {
      if count == 0 {
        if notified {
          notified := false;
          return Notified;
        }
        return Empty;
      }
      Dequeued(queue, head, tail, count);
      r := Received(ItemOf(queue[head]));
      head := Mod(head + 1, |queue|);
      count := count - 1;
    }

    /**
     port_recv by task `receiver`: dequeue, then bring the disposals over from the task that
     the queue recorded as the sender, if it still exists.
     */
    method Recv(receiver: Space, tasks: map<nat, Space>, memory: Memory)
      returns (r: RecvResult, ghost forged: multiset<Slot>)
      requires Valid() && receiver.Valid() && Sized(memory) && forall t :: t in tasks ==> tasks[t].Valid()
      requires Contents() != [] && Contents()[0].sender in tasks && tasks[Contents()[0].sender] == receiver ==>
        NoneHeld(Contents()[0].packet.disposals, Contents()[0].sender, receiver.slots)
      modifies this, receiver, tasks.Values
      ensures Valid() && receiver.Valid() && forall t :: t in tasks ==> tasks[t].Valid()
      ensures r.Received? <==> old(Contents()) != []
      ensures r.Received? ==> old(Contents()) == [r.item] + Contents()
      ensures r.Notified? <==> old(Contents()) == [] && old(notified)
      ensures notified == (old(notified) && r.Received?)
      ensures KeptGranted(old(receiver.slots), old(receiver.bitmap), receiver.slots, receiver.bitmap)
      ensures FromTask(r, tasks) ==>
        var sender := tasks[r.item.sender];
        Delivered(r.item.packet.disposals, r.item.sender, old(sender.slots), old(sender.bitmap), sender.slots,
                  Starved(receiver.bitmap, memory), forged)
      ensures FromTask(r, tasks) ==>
        var sender := tasks[r.item.sender];
        sender.Granted() + receiver.Granted() == old(sender.Granted() + receiver.Granted()) + forged
      ensures FromTask(r, tasks) ==>
        var sender := tasks[r.item.sender]; old(sender.Exact()) ==> sender.Exact()
      ensures old(receiver.Exact()) && Blank(memory) ==> receiver.Exact()
      ensures !FromTask(r, tasks) ==>
        receiver.slots == old(receiver.slots) && receiver.bitmap == old(receiver.bitmap) && forged == multiset{}
      ensures forall t :: t in tasks && tasks[t] != receiver ==>
        || (FromTask(r, tasks) && tasks[t] == tasks[r.item.sender])
        || (tasks[t].slots == old(tasks[t].slots) && tasks[t].bitmap == old(tasks[t].bitmap))
    {
      hide Caps, GrantedIn, Sound, Bit;
      SoundSize(receiver.slots, receiver.bitmap);
      forged := multiset{};
      r := Dequeue();
      if FromTask(r, tasks) {
        var sender := tasks[r.item.sender];
        if r.item.packet.disposals != [] {
          var moved;
          moved, forged := Deliver(receiver, r.item.packet, Sender(r.item.sender, sender), memory);
        }
      }
    }

    /** port_notify. */
    method Notify()
      requires Valid()
      modifies this
      ensures Valid() && notified && Contents() == old(Contents())
    {
      notified := true;
    }
  }

  /* ---------------- capabilities in messages ---------------- */

  datatype Sender = Sender(id: nat, space: Space)

  function SenderId(s: Option<Sender>): nat {
    if s.Some? then s.value.id else 0
  }

  /** The disposal names a slot of the sender's own that holds a capability of its kind. */
  predicate Holds(d: Disposal, s: Sender)
    reads s.space
  {
    HoldsIn(d, s.id, s.space.slots)
  }

  ghost predicate Disposable(m: Message, sender: Option<Sender>)
    requires Formed(m)
    reads if sender.Some? then {sender.value.space} else {}
  {
    m.ndispose == 0 ||
    (&& sender.Some? && m.ndispose <= DISPOSE_MAX
     && forall i :: 0 <= i < m.ndispose ==> Holds(m.dispose[i], sender.value))
  }

  /** cspace_lookup_snapshot and the tests around it, one by one. */
  method CheckHeld(d: Disposal, sender: Sender) returns (held: bool)
    ensures held <==> Holds(d, sender)
    ensures held <==>
      var slots, k := sender.space.slots, HandleSlot(d.handle);
      HandleTask(d.handle) == sender.id && k < |slots| && slots[k].inUse && slots[k].kind == d.kind
  {
    if HandleTask(d.handle) != sender.id {
      return false;
    }
    var slot := HandleSlot(d.handle);
    if slot >= |sender.space.slots| || !sender.space.slots[slot].inUse {
      return false;
    }
    var snapshot := sender.space.slots[slot];
    held := snapshot.kind == d.kind;
  }

  /**
   validate_dispose: every handle names the sender's own task and a slot in use there, of the kind
   that goes with it.
   */
  method ValidateDispose(m: Message, sender: Option<Sender>) returns (ok: bool)
    requires Formed(m)
    ensures ok <==> Disposable(m, sender)
  {
    if m.ndispose == 0 {
      return true;
    }
    if sender.None? || m.ndispose > DISPOSE_MAX {
      return false;
    }
    for i := 0 to m.ndispose
      invariant forall k :: 0 <= k < i ==> Holds(m.dispose[k], sender.value)
    {
      var held := CheckHeld(m.dispose[i], sender.value);
      if !held {
        return false;
      }
    }
    return true;
  }

  predicate HoldsIn(d: Disposal, id: nat, slots: seq<Slot>) {
    && HandleTask(d.handle) == id && HandleSlot(d.handle) < |slots|
    && slots[HandleSlot(d.handle)].inUse && slots[HandleSlot(d.handle)].kind == d.kind
  }

  /** A slot is as it was unless a disposal of a capability held there has emptied it. */
  ghost predicate Emptied(slots: seq<Slot>, slots': seq<Slot>, ds: seq<Disposal>, id: nat) {
    && |slots| == |slots'|
    && forall k :: 0 <= k < |slots| ==> slots'[k] == slots[k] || (slots'[k] == VACANT && Named(slots, k, ds, id))
  }

  ghost predicate Named(slots: seq<Slot>, k: int, ds: seq<Disposal>, id: nat) {
    exists d :: d in ds && HandleSlot(d.handle) == k && HoldsIn(d, id, slots)
  }

  /** Every disposal of a capability held has emptied its slot. */
  ghost predicate Taken(slots: seq<Slot>, slots': seq<Slot>, ds: seq<Disposal>, id: nat)
    requires |slots| == |slots'|
  {
    forall d :: d in ds && HoldsIn(d, id, slots) ==> slots'[HandleSlot(d.handle)] == VACANT
  }

  /** No disposal names a capability held, so cspace_move is not reached. */
  ghost predicate NoneHeld(ds: seq<Disposal>, id: nat, slots: seq<Slot>) {
    forall i :: 0 <= i < |ds| ==> !HoldsIn(ds[i], id, slots)
  }

  /** The disposals name marked slots only, so what they dispose of was granted. */
  ghost predicate Backed(slots: seq<Slot>, bitmap: seq<Word>, ds: seq<Disposal>, id: nat) {
    forall d :: d in ds && HoldsIn(d, id, slots) ==> !Stray(slots, bitmap, HandleSlot(d.handle))
  }

  /**
   What a delivery does to the sender's slots: exactly the ones disposed of are emptied, unless the
   receiver is out of slots, and nothing is forged if and only if all of them were marked.
   */
  ghost predicate Delivered(ds: seq<Disposal>, id: nat, slots: seq<Slot>, bitmap: seq<Word>, slots': seq<Slot>,
                            starved: bool, forged: multiset<Slot>) {
    && Emptied(slots, slots', ds, id)
    && (Taken(slots, slots', ds, id) || starved)
    && (Backed(slots, bitmap, ds, id) ==> forged == multiset{})
    && (forged == multiset{} ==> Backed(slots, bitmap, ds, id) || starved)
  }

  /** A delivery under way. */
  ghost predicate Delivering(ds: seq<Disposal>, i: nat, id: nat, slots: seq<Slot>, bitmap: seq<Word>, slots': seq<Slot>,
                             bitmap': seq<Word>, starved: bool, forged: multiset<Slot>)
    requires i <= |ds|
  {
    && Emptied(slots, slots', ds, id)
    && (Taken(slots, slots', ds[..i], id) || starved)
    && (forall k: nat :: k < |slots| && slots'[k] == slots[k] ==>
        (Stray(slots, bitmap, k) <==> Stray(slots', bitmap', k)))
    && (Backed(slots, bitmap, ds, id) ==> forged == multiset{})
    && (forged == multiset{} ==> forall k: nat :: Stray(slots, bitmap, k) ==> slots'[k] == slots[k])
  }

  /** The full table of 256 slots, grown into used memory: task 5 may dispose of slot 300, which nobody granted. */
  lemma {:induction false} StrayAccepted()
    ensures var slots, bitmap := FullTable() + UsedMemory(), FullBitmap() + ClearWords(|FullBitmap()|);
      var d := Disposal(1, 3, MakeHandle(5, 300));
      HoldsIn(d, 5, slots) && Stray(slots, bitmap, 300) && !Backed(slots, bitmap, [d], 5)
  {
    GrowthStrays();
    HandleRoundTrip(5, 300);
    var d := Disposal(1, 3, MakeHandle(5, 300));
    assert (FullTable() + UsedMemory())[300] == Slot(9, 1, 3, true);
    assert d in [d];
  }

  lemma {:induction false} StartDelivery(ds: seq<Disposal>, id: nat, slots: seq<Slot>, bitmap: seq<Word>, starved: bool)
    ensures Delivering(ds, 0, id, slots, bitmap, slots, bitmap, starved, multiset{})
  {
  }

  /** A disposal of nothing held, or one that finds the receiver without a slot, changes nothing. */
  lemma {:induction false} NothingMoves(ds: seq<Disposal>, i: nat, id: nat, slots: seq<Slot>, bitmap: seq<Word>,
                                        now: seq<Slot>, bits: seq<Word>, starved: bool, forged: multiset<Slot>)
    requires i < |ds| && Delivering(ds, i, id, slots, bitmap, now, bits, starved, forged)
    requires HoldsIn(ds[i], id, now) ==> starved
    ensures Delivering(ds, i + 1, id, slots, bitmap, now, bits, starved, forged)
  {
    hide Bit;
    assert ds[..i + 1] == ds[..i] + [ds[i]];
  }

  lemma {:induction false} OneMoves(ds: seq<Disposal>, i: nat, id: nat, slots: seq<Slot>, bitmap: seq<Word>,
                                    now: seq<Slot>, bits: seq<Word>, next: seq<Slot>, bits': seq<Word>, starved: bool,
                                    forged: multiset<Slot>)
    requires i < |ds| && Delivering(ds, i, id, slots, bitmap, now, bits, false, forged) && HoldsIn(ds[i], id, now)
    requires Withdrawn(now, bits, HandleSlot(ds[i].handle), next, bits')
    ensures Delivering(ds, i + 1, id, slots, bitmap, next, bits', starved,
                       forged + Forged(now, bits, HandleSlot(ds[i].handle)))
  {
    hide Bit, HandleSlot, HandleTask;
    var d, k := ds[i], HandleSlot(ds[i].handle);
    assert ds[..i + 1] == ds[..i] + [d] && d in ds;
    assert now[k] == slots[k] && Named(slots, k, ds, id);
    forall j: nat | j < |slots| && next[j] == slots[j]
      ensures Stray(slots, bitmap, j) <==> Stray(next, bits', j)
    {
      assert j != k;
    }
    assert Stray(slots, bitmap, k) <==> Stray(now, bits, k);
  }

  lemma {:induction false} DeliveryDone(ds: seq<Disposal>, id: nat, slots: seq<Slot>, bitmap: seq<Word>,
                                        slots': seq<Slot>, bitmap': seq<Word>, starved: bool, forged: multiset<Slot>)
    requires Delivering(ds, |ds|, id, slots, bitmap, slots', bitmap', starved, forged)
    ensures Delivered(ds, id, slots, bitmap, slots', starved, forged)
  {
    assert ds[..|ds|] == ds;
  }

  lemma {:induction false} KeptSame(slots: seq<Slot>, bitmap: seq<Word>)
    requires |slots| == WORD_BITS * |bitmap|
    ensures KeptGranted(slots, bitmap, slots, bitmap)
  {
  }

  lemma {:induction false} KeptOn(slots: seq<Slot>, bitmap: seq<Word>, slots': seq<Slot>, bitmap': seq<Word>,
                                  slots'': seq<Slot>, bitmap'': seq<Word>)
    requires KeptGranted(slots, bitmap, slots', bitmap') && KeptGranted(slots', bitmap', slots'', bitmap'')
    ensures KeptGranted(slots, bitmap, slots'', bitmap'')
  {
    hide Bit;
  }

  /** The turn of one disposal. */
  method DeliverOne(receiver: Space, ds: seq<Disposal>, i: nat, sender: Sender, memory: Memory, ghost slots: seq<Slot>,
                    ghost bitmap: seq<Word>, ghost forged: multiset<Slot>)
    returns (moved: nat, ghost extra: multiset<Slot>)
    requires receiver.Valid() && sender.space.Valid() && Sized(memory) && i < |ds|
    requires receiver == sender.space ==> !Holds(ds[i], sender)
    requires Delivering(ds, i, sender.id, slots, bitmap, sender.space.slots, sender.space.bitmap,
                        Starved(receiver.bitmap, memory), forged)
    modifies receiver, sender.space
    ensures receiver.Valid() && sender.space.Valid()
    ensures sender.space.Granted() + receiver.Granted() == old(sender.space.Granted() + receiver.Granted()) + extra
    ensures |receiver.Granted()| == old(|receiver.Granted()|) + moved
    ensures KeptGranted(old(receiver.slots), old(receiver.bitmap), receiver.slots, receiver.bitmap)
    ensures receiver == sender.space ==> receiver.slots == old(receiver.slots)
    ensures Delivering(ds, i + 1, sender.id, slots, bitmap, sender.space.slots, sender.space.bitmap,
                       Starved(receiver.bitmap, memory), forged + extra)
    ensures old(sender.space.Exact()) ==> sender.space.Exact()
    ensures old(receiver.Exact()) && Blank(memory) ==> receiver.Exact()
  {
    hide Caps, GrantedIn, Sound, Bit, Delivering, Starved, KeptGranted, Marked, HandleSlot;
    moved, extra := 0, multiset{};
    var d := ds[i];
    ghost var now, bits := sender.space.slots, sender.space.bitmap;
    SoundSize(receiver.slots, receiver.bitmap);
    KeptSame(receiver.slots, receiver.bitmap);
    assert forged + extra == forged;
    var held := CheckHeld(d, sender);
    if held {
      SoundSize(now, bits);
      ghost var starved := Starved(receiver.bitmap, memory);
      var r := Move(sender.space, receiver, HandleSlot(d.handle), memory);
      if r >= 0 {
        moved, extra := 1, Forged(now, bits, HandleSlot(d.handle));
        OneMoves(ds, i, sender.id, slots, bitmap, now, bits, sender.space.slots, sender.space.bitmap,
                 Starved(receiver.bitmap, memory), forged);
        return;
      }
    }
    NothingMoves(ds, i, sender.id, slots, bitmap, now, bits, Starved(receiver.bitmap, memory), forged);
  }

  /**
   deliver_dispose.  Records move from the recorded sender to the receiver; what the two were
   granted together grows by what was forged.  A task that is its own sender must have nothing to
   move: cspace_move takes both locks, and on one space waits for itself.
   */
  method Deliver(receiver: Space, packet: Packet, sender: Sender, memory: Memory)
    returns (moved: nat, ghost forged: multiset<Slot>)
    requires receiver.Valid() && sender.space.Valid() && Sized(memory)
    requires receiver == sender.space ==> NoneHeld(packet.disposals, sender.id, receiver.slots)
    modifies receiver, sender.space
    ensures receiver.Valid() && sender.space.Valid()
    ensures sender.space.Granted() + receiver.Granted() == old(sender.space.Granted() + receiver.Granted()) + forged
    ensures |receiver.Granted()| == old(|receiver.Granted()|) + moved
    ensures KeptGranted(old(receiver.slots), old(receiver.bitmap), receiver.slots, receiver.bitmap)
    ensures Delivered(packet.disposals, sender.id, old(sender.space.slots), old(sender.space.bitmap),
                      sender.space.slots,
                      Starved(receiver.bitmap, memory), forged)
    ensures old(sender.space.Exact()) ==> sender.space.Exact()
    ensures old(receiver.Exact()) && Blank(memory) ==> receiver.Exact()
  {
    hide Caps, GrantedIn, Sound, Bit, Delivering, Starved, KeptGranted;
    moved, forged := 0, multiset{};
    ghost var ds, slots, bits := packet.disposals, sender.space.slots, sender.space.bitmap;
    StartDelivery(ds, sender.id, slots, bits, Starved(receiver.bitmap, memory));
    SoundSize(receiver.slots, receiver.bitmap);
    KeptSame(receiver.slots, receiver.bitmap);
    for i := 0 to |packet.disposals|
      invariant receiver.Valid() && sender.space.Valid()
      invariant sender.space.Granted() + receiver.Granted() == old(sender.space.Granted() + receiver.Granted()) + forged
      invariant |receiver.Granted()| == old(|receiver.Granted()|) + moved
      invariant KeptGranted(old(receiver.slots), old(receiver.bitmap), receiver.slots, receiver.bitmap)
      invariant Delivering(ds, i, sender.id, slots, bits, sender.space.slots, sender.space.bitmap,
                           Starved(receiver.bitmap, memory), forged)
      invariant receiver == sender.space ==> receiver.slots == old(receiver.slots)
      invariant old(sender.space.Exact()) ==> sender.space.Exact()
      invariant old(receiver.Exact()) && Blank(memory) ==> receiver.Exact()
    {
      var more;
      ghost var extra;
      ghost var kept, marks := receiver.slots, receiver.bitmap;
      more, extra := DeliverOne(receiver, packet.disposals, i, sender, memory, slots, bits, forged);
      KeptOn(old(receiver.slots), old(receiver.bitmap), kept, marks, receiver.slots, receiver.bitmap);
      moved, forged := moved + more, forged + extra;
    }
    DeliveryDone(ds, sender.id, slots, bits, sender.space.slots, sender.space.bitmap, Starved(receiver.bitmap, memory),
                 forged);
  }
}
