/**
 Pipes: a ring of 4096 bytes between any number of readers and writers.  Each method below is
 one section of the code run under the pipe's lock, so that every interleaving of readers and
 writers is some sequence of these calls.
 */
module Pipe {

  const SIZE := 4096
  const U64 := 0x1_0000_0000_0000_0000

  type Byte = x: int | 0 <= x < 256
  type Bytes = seq<Byte>

  /** The place in the ring of the byte with number `p`. */
  function Place(p: nat): (i: nat)
    ensures i < SIZE
  {
    p % SIZE
  }

  /** size_t arithmetic. */
  function Word(x: int): nat {
    x % U64
  }

  function Min(a: nat, b: nat): nat {
    if a < b then a else b
  }

  /** The free-running 64-bit counters address the ring as unbounded ones would. */
  lemma {:induction false} IndexUnwrapped(x: nat, i: nat)
    ensures Place(Word(Word(x) + i)) == Place(x + i)
  {
    var k := 0x10_0000_0000_0000;
    assert U64 == SIZE * k;
    var q, y := x / U64, x % U64 + i;
    var p := y / U64;
    assert x + i == y + SIZE * (k * q);
    assert y == y % U64 + SIZE * (k * p);
    ModSize(y, k * q);
    ModSize(y % U64, k * p);
  }

  lemma {:induction false} ModSize(x: nat, q: nat)
    ensures (x + SIZE * q) % SIZE == x % SIZE
  {
    assert x + SIZE * q == SIZE * (x / SIZE + q) + x % SIZE;
  }

  /** Their difference modulo 2^64 is the true occupancy. */
  lemma {:induction false} UsedUnwrapped(h: nat, t: nat)
    requires t <= h < t + U64
    ensures Word(Word(h) - Word(t)) == h - t
  {
    var a, b := h / U64, t / U64;
    assert h % U64 - t % U64 == (h - t) + U64 * (b - a);
    ModU64(h - t, b - a);
  }

  lemma {:induction false} ModU64(x: nat, q: int)
    requires x < U64
    ensures (x + U64 * q) % U64 == x
  {
  }

  /** The two counts are within one ring of each other and different places do not collide. */
  lemma {:induction false} PlacesApart(p: nat, q: nat)
    requires p < q < p + SIZE
    ensures Place(p) != Place(q)
  {
    assert q - p == SIZE * (q / SIZE - p / SIZE) + (q % SIZE - p % SIZE);
  }

  /** One locked copy into the ring: which writer, and which bytes. */
  datatype Chunk = Chunk(writer: nat, bytes: Bytes)

  ghost function Flatten(log: seq<Chunk>): Bytes {
    if log == [] then [] else Flatten(log[..|log| - 1]) + log[|log| - 1].bytes
  }

  /** What writer `w` has put in, in order. */
  ghost function By(log: seq<Chunk>, w: nat): Bytes {
    if log == [] then []
    else By(log[..|log| - 1], w) + (if log[|log| - 1].writer == w then log[|log| - 1].bytes else [])
  }

  lemma {:induction false} Logged(log: seq<Chunk>, c: Chunk)
    ensures Flatten(log + [c]) == Flatten(log) + c.bytes
    ensures forall w :: By(log + [c], w) == By(log, w) + (if c.writer == w then c.bytes else [])
  {
    assert (log + [c])[..|log|] == log;
  }

  /** A call of pipe_write in progress. */
  datatype Writer = Writer(src: Bytes, done: nat, sampled: bool, result: Result)

  datatype Result = Running | Returned(n: nat) | Failed

  datatype ReadResult = Data(bytes: Bytes) | EndOfFile | Wait

  class SharedPipe {
    const buf: array<Byte>
    var head: nat
    var tail: nat
    var readers: int
    var writers: int
    var freed: bool
    var calls: map<nat, Writer>
    ghost var log: seq<Chunk>
    ghost var consumed: Bytes

    /** The bytes in the ring, oldest first. */
    ghost function Buffered(): Bytes
      requires |consumed| <= |Flatten(log)|
      reads this
    {
      Flatten(log)[|consumed|..]
    }

    ghost predicate Valid()
      reads this, buf
    {
      && buf.Length == SIZE
      && consumed <= Flatten(log)
      && |Buffered()| <= SIZE
      && head == Word(|Flatten(log)|) && tail == Word(|consumed|)
      && Ring(Flatten(log), |consumed|)
      && (forall w :: w in calls ==> CallOk(calls[w], By(log, w)))
      && (forall w :: w !in calls ==> By(log, w) == [])
    }

    /** A writer has put in a prefix of its source, and reports its length. */
    static ghost predicate CallOk(c: Writer, put: Bytes) {
      && c.done <= |c.src| && put == c.src[..c.done]
      && (c.result.Returned? ==> c.result.n == c.done && (c.done > 0 || |c.src| == 0))
      && (c.result.Failed? ==> c.done == 0 && |c.src| > 0)
    }

    constructor ()
      ensures Valid() && log == [] && consumed == [] && calls == map[] && fresh(buf)
      ensures readers == 1 && writers == 1 && !freed
    {
      buf := new Byte[SIZE](_ => 0);
      head, tail, readers, writers, freed := 0, 0, 1, 1, false;
      calls, log, consumed := map[], [], [];
    }

    function Used(): int
      reads this
    {
      Word(head - tail)
    }

    lemma {:induction false} UsedIs()
      requires Valid()
      ensures Used() == |Buffered()| <= SIZE
    {
      UsedUnwrapped(|Flatten(log)|, |consumed|);
    }

    /** The locked section of pipe_read: data if there is any, else end of file or a sleep. */
    method ReadStep(count: nat) returns (r: ReadResult)
      requires Valid()
      modifies this`tail, this`consumed
      ensures Valid()
      ensures r.Data? ==>
        && r.bytes <= old(Buffered()) && |r.bytes| == Min(count, |old(Buffered())|)
        && consumed == old(consumed) + r.bytes && Buffered() == old(Buffered())[|r.bytes|..]
      ensures r.Data? <==> old(Buffered()) != []
      ensures !r.Data? ==> consumed == old(consumed) && (r.EndOfFile? <==> writers <= 0)
    {
      hide Place, Word, Flatten, By, CallOk;
      UsedIs();
      var used := Used();
      if used == 0 {
        return if writers <= 0 then EndOfFile else Wait;
      }
      var n := Min(count, used);
      var bytes: Bytes := [];
      ghost var all, c := Flatten(log), |consumed|;
      for i := 0 to n
        invariant |bytes| == i && bytes == all[c..c + i]
        modifies {}
      {
        IndexUnwrapped(c, i);
        assert buf[Place(c + i)] == all[c + i];
        bytes := bytes + [buf[Place(Word(tail + i))]];
      }
      ModAdd(c, n);
      tail := Word(tail + n);
      consumed := consumed + bytes;
      r := Data(bytes);
    }

    /** Entering pipe_write: an empty request returns at once. */
    method StartWrite(w: nat, src: Bytes)
      requires Valid() && w !in calls
      modifies this`calls
      ensures Valid() && calls == old(calls)[w := Writer(src, 0, false, if src == [] then Returned(0) else Running)]
    {
      calls := calls[w := Writer(src, 0, false, if src == [] then Returned(0) else Running)];
    }

    /** The writer is inside the loop of pipe_write. */
    ghost predicate Writing(w: nat)
      reads this
    {
      w in calls && calls[w].result.Running? && calls[w].done < |calls[w].src|
    }

    /**
     The first locked section of a round of pipe_write: give up when there is no reader or a
     signal ends the sleep on a full pipe, go round again after a wake-up, else go on to copy.
     Without a reader SIGPIPE becomes pending, if its action is the default.
     */
    method SampleStep(w: nat, interrupted: bool, byDefault: bool) returns (sigpipe: bool)
      requires Valid() && Writing(w)
      modifies this`calls
      ensures Valid() && w in calls && calls == old(calls)[w := calls[w]]
      ensures calls[w].src == old(calls)[w].src && calls[w].done == old(calls)[w].done
      ensures sigpipe <==> readers <= 0 && byDefault
      ensures calls[w].sampled <==> readers > 0 && |Buffered()| < SIZE
      ensures calls[w].result == if readers > 0 && !(interrupted && |Buffered()| == SIZE) then Running
                                 else if calls[w].done > 0 then Returned(calls[w].done) else Failed
    {
      UsedIs();
      var c := calls[w];
      var space := SIZE - Used();
      var stopped := if c.done > 0 then Returned(c.done) else Failed;
      sigpipe := readers <= 0 && byDefault;
      if readers <= 0 || (space == 0 && interrupted) {
        c := c.(result := stopped, sampled := false);
      } else {
        c := c.(sampled := space != 0);
      }
      calls := calls[w := c];
    }

    /**
     The second locked section: the free space is sampled again and the copy clamped to it, so
     that it may be smaller than what the first section saw, down to nothing.
     */
    method CopyStep(w: nat)
      requires Valid() && Writing(w) && calls[w].sampled
      modifies this`head, this`calls, this`log, buf
      ensures Valid() && w in calls && calls == old(calls)[w := calls[w]] && consumed == old(consumed)
      ensures var c := old(calls)[w];
        var n := Min(|c.src| - c.done, SIZE - |old(Buffered())|);
        && calls[w].src == c.src && calls[w].done == c.done + n
        && Buffered() == old(Buffered()) + c.src[c.done..c.done + n]
        && (calls[w].result.Returned? <==> calls[w].done == |c.src|) && !calls[w].result.Failed?
    {
      hide Place, Word, Flatten, By;
      UsedIs();
      var c := calls[w];
      var n := Min(|c.src| - c.done, SIZE - Used());
      var bytes := c.src[c.done..c.done + n];
      CopyIn(bytes);
      Logged(log, Chunk(w, bytes));
      log := log + [Chunk(w, bytes)];
      var done := c.done + n;
      assert c.src[..c.done] + bytes == c.src[..done];
      calls := calls[w := Writer(c.src, done, false, if done == |c.src| then Returned(done) else Running)];
    }

    /** The ring from the oldest byte on holds the bytes `all`, numbered from `low`. */
    ghost predicate Ring(all: Bytes, low: nat)
      requires buf.Length == SIZE
      reads buf
    {
      forall p :: low <= p < |all| ==> buf[Place(p)] == all[p]
    }

    method CopyIn(bytes: Bytes)
      requires Valid() && |bytes| <= SIZE - |Buffered()|
      modifies this`head, buf
      ensures head == Word(|Flatten(log) + bytes|) && Ring(Flatten(log) + bytes, |consumed|)
    {
      hide Place, Word, Flatten, By;
      ghost var all, low := Flatten(log), |consumed|;
      var i := 0;
      assert all + bytes[..0] == all;
      while i < |bytes|
        invariant 0 <= i <= |bytes| && Ring(all + bytes[..i], low)
        modifies buf
      {
        IndexUnwrapped(|all|, i);
        CopyApart(low, |all|, i);
        ghost var was := all + bytes[..i];
        assert all + bytes[..i + 1] == was + [bytes[i]];
        buf[Place(Word(head + i))] := bytes[i];
        i := i + 1;
      }
      assert bytes[..i] == bytes;
      ModAdd(|all|, |bytes|);
      head := Word(head + |bytes|);
    }

    /** pipe_open. */
    method Open(readEnd: bool)
      requires Valid()
      modifies this`readers, this`writers
      ensures Valid() && freed == old(freed)
      ensures readers == old(readers) + (if readEnd then 1 else 0) &&
        writers == old(writers) + (if readEnd then 0 else 1)
    {
      if readEnd {
        readers := readers + 1;
      } else {
        writers := writers + 1;
      }
    }

    /**
     pipe_close: the bytes stay, and the close that finds no end of either kind open is the one
     that frees the pipe.  Whatever calls came before, at most one does.
     */
    method Close(readEnd: bool) returns (frees: bool)
      requires Valid()
      modifies this`readers, this`writers, this`freed
      ensures Valid()
      ensures readers == old(readers) - (if readEnd then 1 else 0) &&
        writers == old(writers) - (if readEnd then 0 else 1)
      ensures frees <==> readers <= 0 && writers <= 0 && !old(freed)
      ensures freed <==> old(freed) || frees
    {
      if readEnd {
        readers := readers - 1;
      } else {
        writers := writers - 1;
      }
      frees := readers <= 0 && writers <= 0 && !freed;
      if frees {
        freed := true;
      }
    }
  }

  /** The place for byte `i` of a copy is none of the places already occupied. */
  lemma {:induction false} CopyApart(low: nat, high: nat, i: nat)
    requires low <= high && high + i < low + SIZE
    ensures forall p: nat :: low <= p < high + i ==> Place(p) != Place(high + i)
  {
    forall p: nat | low <= p < high + i
      ensures Place(p) != Place(high + i)
    {
      PlacesApart(p, high + i);
    }
  }

  lemma {:induction false} ModAdd(x: nat, n: nat)
    ensures Word(Word(x) + n) == Word(x + n)
  {
    var y := x % U64 + n;
    var q := x / U64;
    assert x + n == y + U64 * q;
    ModU64Any(y, q);
  }

  lemma {:induction false} ModU64Any(y: nat, q: nat)
    ensures (y + U64 * q) % U64 == y % U64
  {
    assert y + U64 * q == U64 * (y / U64 + q) + y % U64;
  }
}
