/**
 The amd64 sigframe in user memory: 15 little-endian 64-bit words, of which the first, the
 eighth and the ninth hold two 32-bit fields each.
 */
module SigFrame {
  import opened ExecStack

  const U32 := 0x1_0000_0000
  const FRAME_WORDS := 15
  const FRAME_SIZE := 120
  const ARGS := 6

  type Word32 = x: int | 0 <= x < U32
  type Word64 = x: int | 0 <= x < U64

  /** A word as its bits, least significant first. */
  type Mask = m: seq<bool> | |m| == 32 witness seq(32, _ => false)
  type Flags = m: seq<bool> | |m| == 64 witness seq(64, _ => false)

  /** The restart part of a frame whose restart_active is set. */
  datatype Restart = Restart(sysno: Word32, args: seq<Word64>)

  datatype Option<+T> = None | Some(value: T)

  datatype Frame = Frame(signum: Word32, rip: Word64, cs: Word64, rflags: Flags, rsp: Word64, ss: Word64, rax: Word64,
                         mask: Mask, restart: Option<Restart>)

  ghost predicate Proper(f: Frame) {
    f.restart.Some? ==> |f.restart.value.args| == ARGS
  }

  /* ---------------- bits ---------------- */

  function NumberOf(bits: seq<bool>): nat {
    if bits == [] then 0 else (if bits[0] then 1 else 0) + 2 * NumberOf(bits[1..])
  }

  function BitsOf(x: nat, n: nat): (bits: seq<bool>)
    ensures |bits| == n
  {
    if n == 0 then [] else [x % 2 == 1] + BitsOf(x / 2, n - 1)
  }

  function Pow2(n: nat): nat {
    if n == 0 then 1 else 2 * Pow2(n - 1)
  }

  lemma {:induction false} BitsRoundTrip(bits: seq<bool>)
    ensures NumberOf(bits) < Pow2(|bits|) && BitsOf(NumberOf(bits), |bits|) == bits
  {
    if bits != [] {
      BitsRoundTrip(bits[1..]);
      assert NumberOf(bits) / 2 == NumberOf(bits[1..]);
    }
  }

  lemma {:induction false} Pow2Sum(m: nat, n: nat)
    ensures Pow2(m + n) == Pow2(m) * Pow2(n)
  {
    if m > 0 {
      Pow2Sum(m - 1, n);
      assert Pow2(m + n) == 2 * (Pow2(m - 1) * Pow2(n));
    }
  }

  lemma {:induction false} WordSizes()
    ensures Pow2(32) == U32 && Pow2(64) == U64
  {
    hide Pow2;
    SmallPowers();
    Pow2Sum(8, 8);
    assert Pow2(16) == 0x1_0000;
    Pow2Sum(16, 16);
    assert Pow2(32) == U32;
    Pow2Sum(32, 32);
  }

  lemma {:induction false} SmallPowers()
    ensures Pow2(8) == 256
  {
    assert Pow2(2) == 4;
    assert Pow2(4) == 16;
    assert Pow2(6) == 64;
  }

  function MaskNumber(m: Mask): Word32 {
    BitsRoundTrip(m);
    WordSizes();
    NumberOf(m)
  }

  function FlagsNumber(m: Flags): Word64 {
    BitsRoundTrip(m);
    WordSizes();
    NumberOf(m)
  }

  /* ---------------- words ---------------- */

  function Pair(low: Word32, high: Word32): Word64 {
    low + U32 * high
  }

  function Low(w: Word64): Word32 {
    w % U32
  }

  function High(w: Word64): Word32 {
    w / U32
  }

  lemma {:induction false} PairParts(low: Word32, high: Word32)
    ensures Low(Pair(low, high)) == low && High(Pair(low, high)) == high
  {
  }

  /** The frame's words.  Without a restart its argument fields hold whatever the kernel stack held. */
  function FrameWords(f: Frame, junk: seq<Word64>): (ws: seq<Word64>)
    requires Proper(f) && |junk| == ARGS
    ensures |ws| == FRAME_WORDS
  {
    [Pair(f.signum, 0), f.rip, f.cs, FlagsNumber(f.rflags), f.rsp, f.ss, f.rax, Pair(MaskNumber(f.mask), 0),
     if f.restart.Some? then Pair(1, f.restart.value.sysno) else 0]
    + (if f.restart.Some? then f.restart.value.args else junk)
  }

  function FrameOf(ws: seq<Word64>): (f: Frame)
    requires |ws| == FRAME_WORDS
    ensures Proper(f)
  {
    Frame(Low(ws[0]), ws[1], ws[2], BitsOf(ws[3], 64), ws[4], ws[5], ws[6], BitsOf(Low(ws[7]), 32),
          if Low(ws[8]) != 0 then Some(Restart(High(ws[8]), ws[9..])) else None)
  }

  lemma {:induction false} WordsRoundTrip(f: Frame, junk: seq<Word64>)
    requires Proper(f) && |junk| == ARGS
    ensures FrameOf(FrameWords(f, junk)) == f
  {
    hide Pair, Low, High, NumberOf, BitsOf;
    var ws := FrameWords(f, junk);
    PairParts(f.signum, 0);
    PairParts(MaskNumber(f.mask), 0);
    PairParts(0, 0);
    BitsRoundTrip(f.rflags);
    BitsRoundTrip(f.mask);
    if f.restart.Some? {
      PairParts(1, f.restart.value.sysno);
      assert ws[9..] == f.restart.value.args;
    } else {
      ZeroPair();
    }
  }

  lemma {:induction false} ZeroPair()
    ensures Pair(0, 0) == 0
  {
  }

  /* ---------------- bytes ---------------- */

  function Flat(ws: seq<Word64>): (b: Bytes)
    ensures |b| == 8 * |ws|
  {
    if ws == [] then [] else Encode(ws[0], 8) + Flat(ws[1..])
  }

  predicate Readable(mem: Memory, a: int, n: nat) {
    forall x :: a <= x < a + n ==> x in mem
  }

  lemma {:induction false} DecodeBound(b: Bytes)
    ensures Decode(b) < Pow256(|b|)
  {
    if b != [] {
      DecodeBound(b[1..]);
    }
  }

  function WordIn(mem: Memory, a: int): Word64
    requires Readable(mem, a, 8)
  {
    var b: Bytes := seq(8, i requires 0 <= i < 8 && a + i in mem => mem[a + i]);
    DecodeBound(b);
    Pow256Word();
    Decode(b)
  }

  lemma {:induction false} Pow256Word()
    ensures Pow256(8) == U64
  {
    assert Pow256(2) == 0x1_0000;
    assert Pow256(4) == 0x1_0000_0000;
    assert Pow256(6) == 0x1_0000_0000_0000;
  }

  function WordsIn(mem: Memory, a: int): (ws: seq<Word64>)
    requires Readable(mem, a, FRAME_SIZE)
    ensures |ws| == FRAME_WORDS
  {
    seq(FRAME_WORDS, k requires 0 <= k < FRAME_WORDS && Readable(mem, a + 8 * k, 8) => WordIn(mem, a + 8 * k))
  }

  function FrameIn(mem: Memory, a: int): (f: Frame)
    requires Readable(mem, a, FRAME_SIZE)
    ensures Proper(f)
  {
    FrameOf(WordsIn(mem, a))
  }

  lemma {:induction false} WordDecoded(mem: Memory, a: int, w: Word64)
    requires BytesAt(mem, a, Encode(w, 8))
    ensures Readable(mem, a, 8) && WordIn(mem, a) == w
  {
    var b: Bytes := seq(8, i requires 0 <= i < 8 && a + i in mem => mem[a + i]);
    BytesUnique(mem, a, b, Encode(w, 8));
    WordRange(w);
    DecodeEncode(w, 8);
  }

  lemma {:induction false} FlatAt(mem: Memory, a: int, ws: seq<Word64>, k: nat)
    requires BytesAt(mem, a, Flat(ws)) && k < |ws|
    ensures BytesAt(mem, a + 8 * k, Encode(ws[k], 8))
    decreases k
  {
    var rest := Flat(ws[1..]);
    assert Flat(ws) == Encode(ws[0], 8) + rest;
    if k > 0 {
      assert BytesAt(mem, a + 8, rest);
      FlatAt(mem, a + 8, ws[1..], k - 1);
    }
  }

  /** A frame laid out in memory is read back. */
  lemma {:induction false} FrameRoundTrip(mem: Memory, a: int, f: Frame, junk: seq<Word64>)
    requires Proper(f) && |junk| == ARGS && BytesAt(mem, a, Flat(FrameWords(f, junk)))
    ensures Readable(mem, a, FRAME_SIZE) && FrameIn(mem, a) == f
  {
    hide FrameWords, FrameOf, WordIn, Encode, Flat;
    var ws := FrameWords(f, junk);
    forall k | 0 <= k < FRAME_WORDS
      ensures Readable(mem, a + 8 * k, 8) && WordIn(mem, a + 8 * k) == ws[k]
    {
      FlatAt(mem, a, ws, k);
      WordDecoded(mem, a + 8 * k, ws[k]);
    }
    assert WordsIn(mem, a) == ws;
    WordsRoundTrip(f, junk);
  }

  /* ---------------- copies to user memory ---------------- */

  function ByteFor(a: int, b: Bytes, x: int): Byte
    requires a <= x < a + |b|
  {
    b[x - a]
  }

  function Written(mem: Memory, a: int, b: Bytes): Memory {
    mem + (map x | a <= x < a + |b| :: ByteFor(a, b, x))
  }

  lemma {:induction false} WrittenAt(mem: Memory, a: int, b: Bytes)
    ensures BytesAt(Written(mem, a, b), a, b)
  {
  }

  /** A copy elsewhere leaves bytes alone. */
  lemma {:induction false} WrittenKeeps(mem: Memory, a: int, b: Bytes, c: int, d: Bytes)
    requires BytesAt(mem, a, b) && (a + |b| <= c || c + |d| <= a)
    ensures BytesAt(Written(mem, c, d), a, b)
  {
  }

  /** Memory that has not been written is read the same. */
  lemma {:induction false} FrameUntouched(mem: Memory, mem': Memory, a: int)
    requires Readable(mem, a, FRAME_SIZE)
    requires forall x :: a <= x < a + FRAME_SIZE ==> x in mem' && mem'[x] == mem[x]
    ensures Readable(mem', a, FRAME_SIZE) && FrameIn(mem', a) == FrameIn(mem, a)
  {
    hide FrameOf;
    var ws, us := WordsIn(mem, a), WordsIn(mem', a);
    forall k | 0 <= k < FRAME_WORDS
      ensures ws[k] == us[k]
    {
      WordUntouched(mem, mem', a + 8 * k);
    }
    assert ws == us;
  }

  lemma {:induction false} WordUntouched(mem: Memory, mem': Memory, a: int)
    requires Readable(mem, a, 8) && forall x :: a <= x < a + 8 ==> x in mem' && mem'[x] == mem[x]
    ensures Readable(mem', a, 8) && WordIn(mem', a) == WordIn(mem, a)
  {
    var b: Bytes := seq(8, i requires 0 <= i < 8 && a + i in mem => mem[a + i]);
    var c: Bytes := seq(8, i requires 0 <= i < 8 && a + i in mem' => mem'[a + i]);
    assert b == c;
  }
}
