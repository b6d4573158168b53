/**
 exec_build_stack: lays argc, argv and envp out on a new program's stack, in the form of
 section 3.4.1 of the System V AMD64 psABI without the auxiliary vector.
 */
module ExecStack {

  const PAGE := 4096
  const STACK_TOP := 0x0000_7FFF_FFFF_F000
  const STACK_PAGES := 32
  const STACK_LOW := STACK_TOP - STACK_PAGES * PAGE
  const START := STACK_TOP - PAGE
  const BUDGET := STACK_PAGES * PAGE - 4 * PAGE
  const ARG_MAX := 128
  const U64 := 0x1_0000_0000_0000_0000

  type Byte = x: int | 0 <= x < 256
  type Bytes = seq<Byte>
  type Memory = map<int, Byte>

  /* ---------------- words ---------------- */

  function Encode(w: nat, n: nat): (b: Bytes)
    ensures |b| == n
  {
    if n == 0 then [] else [w % 256] + Encode(w / 256, n - 1)
  }

  function Decode(b: Bytes): nat {
    if b == [] then 0 else b[0] + 256 * Decode(b[1..])
  }

  function Pow256(n: nat): nat {
    if n == 0 then 1 else 256 * Pow256(n - 1)
  }

  lemma {:induction false} DecodeEncode(w: nat, n: nat)
    requires w < Pow256(n)
    ensures Decode(Encode(w, n)) == w
  {
    if n > 0 {
      DecodeEncode(w / 256, n - 1);
      assert Encode(w, n)[1..] == Encode(w / 256, n - 1);
    }
  }

  lemma {:induction false} WordRange(w: nat)
    requires w < U64
    ensures w < Pow256(8)
  {
    assert Pow256(2) == 0x1_0000;
    assert Pow256(4) == 0x1_0000_0000;
    assert Pow256(6) == 0x1_0000_0000_0000;
  }

  /* ---------------- the layout ---------------- */

  ghost predicate NoNul(s: Bytes) {
    forall i :: 0 <= i < |s| ==> s[i] != 0
  }

  ghost predicate BytesAt(mem: Memory, a: int, b: Bytes) {
    forall x :: a <= x < a + |b| ==> x in mem && mem[x] == b[x - a]
  }

  /** A NUL-terminated string. */
  ghost predicate StringAt(mem: Memory, a: int, s: Bytes) {
    NoNul(s) && BytesAt(mem, a, s + [0])
  }

  ghost predicate WordAt(mem: Memory, a: int, w: nat) {
    w < U64 && BytesAt(mem, a, Encode(w, 8))
  }

  /** A null-terminated pointer array at `a`, whose entries point at the strings. */
  ghost predicate ArrayAt(mem: Memory, a: int, ptrs: seq<nat>, strs: seq<Bytes>) {
    && |ptrs| == |strs|
    && (forall i :: 0 <= i < |ptrs| ==>
        ptrs[i] != 0 && WordAt(mem, a + 8 * i, ptrs[i]) && StringAt(mem, ptrs[i], strs[i]))
    && WordAt(mem, a + 8 * |ptrs|, 0)
  }

  /** What the new program finds at its initial stack pointer. */
  ghost predicate Layout(mem: Memory, sp: int, argv: seq<Bytes>, envp: seq<Bytes>) {
    && WordAt(mem, sp, |argv|)
    && StringsAt(mem, sp + 8, argv)
    && StringsAt(mem, sp + 16 + 8 * |argv|, envp)
  }

  ghost predicate StringsAt(mem: Memory, a: int, strs: seq<Bytes>) {
    exists ptrs :: ArrayAt(mem, a, ptrs, strs)
  }

  lemma {:induction false} WordUnique(mem: Memory, a: int, w: nat, v: nat)
    requires WordAt(mem, a, w) && WordAt(mem, a, v)
    ensures w == v
  {
    BytesUnique(mem, a, Encode(w, 8), Encode(v, 8));
    WordRange(w);
    WordRange(v);
    DecodeEncode(w, 8);
    DecodeEncode(v, 8);
  }

  lemma {:induction false} BytesUnique(mem: Memory, a: int, b: Bytes, c: Bytes)
    requires |b| == |c| && BytesAt(mem, a, b) && BytesAt(mem, a, c)
    ensures b == c
  {
    forall i | 0 <= i < |b|
      ensures b[i] == c[i]
    {
      assert mem[a + i] == b[a + i - a];
    }
  }

  lemma {:induction false} StringBytes(mem: Memory, a: int, s: Bytes)
    requires StringAt(mem, a, s)
    ensures a + |s| in mem && mem[a + |s|] == 0
    ensures forall x :: a <= x < a + |s| ==> x in mem && mem[x] == s[x - a] != 0
  {
    assert a + |s| in mem;
  }

  lemma {:induction false} StringUnique(mem: Memory, a: int, s: Bytes, t: Bytes)
    requires StringAt(mem, a, s) && StringAt(mem, a, t)
    ensures s == t
  {
    StringBytes(mem, a, s);
    StringBytes(mem, a, t);
    assert |s| == |t|;
    forall i | 0 <= i < |s|
      ensures s[i] == t[i]
    {
      assert mem[a + i] == s[a + i - a];
    }
  }

  lemma {:induction false} ArrayUnique(mem: Memory, a: int, p: seq<nat>, s: seq<Bytes>, q: seq<nat>, t: seq<Bytes>)
    requires ArrayAt(mem, a, p, s) && ArrayAt(mem, a, q, t)
    ensures s == t
  {
    hide WordAt, StringAt;
    if |p| < |q| {
      WordUnique(mem, a + 8 * |p|, 0, q[|p|]);
    } else if |q| < |p| {
      WordUnique(mem, a + 8 * |q|, 0, p[|q|]);
    } else {
      forall i | 0 <= i < |p|
        ensures s[i] == t[i]
      {
        WordUnique(mem, a + 8 * i, p[i], q[i]);
        StringUnique(mem, p[i], s[i], t[i]);
      }
    }
  }

  /** The layout can be read back: memory and stack pointer determine argv and envp. */
  lemma {:induction false} LayoutDecodes(mem: Memory, sp: int, argv: seq<Bytes>, envp: seq<Bytes>, argv': seq<Bytes>,
                                         envp': seq<Bytes>)
    requires Layout(mem, sp, argv, envp) && Layout(mem, sp, argv', envp')
    ensures argv == argv' && envp == envp'
  {
    StringsUnique(mem, sp + 8, argv, argv');
    StringsUnique(mem, sp + 16 + 8 * |argv|, envp, envp');
  }

  lemma {:induction false} StringsUnique(mem: Memory, a: int, s: seq<Bytes>, t: seq<Bytes>)
    requires StringsAt(mem, a, s) && StringsAt(mem, a, t)
    ensures s == t
  {
    var p :| ArrayAt(mem, a, p, s);
    var q :| ArrayAt(mem, a, q, t);
    ArrayUnique(mem, a, p, s, q, t);
  }

  /* ---------------- the packed input ---------------- */

  /** `buf` from `at` on starts with the strings, each followed by its NUL. */
  ghost predicate Packed(buf: Bytes, at: nat, strs: seq<Bytes>)
    decreases |strs|
  {
    strs == [] ||
    (&& NoNul(strs[0])
     && at + |strs[0]| < |buf|
     && buf[at..at + |strs[0]|] == strs[0]
     && buf[at + |strs[0]|] == 0
     && Packed(buf, at + |strs[0]| + 1, strs[1..]))
  }

  /** The bytes the strings take with their terminators. */
  ghost function Total(strs: seq<Bytes>): nat {
    if strs == [] then 0 else |strs[0]| + 1 + Total(strs[1..])
  }

  method Strlen(buf: Bytes, at: nat, ghost s: Bytes) returns (n: nat)
    requires NoNul(s) && at + |s| < |buf| && buf[at..at + |s|] == s && buf[at + |s|] == 0
    ensures n == |s|
  {
    n := 0;
    assert forall i :: 0 <= i < |s| ==> s[i] == buf[at..at + |s|][i];
    while buf[at + n] != 0
      invariant n <= |s|
      decreases |s| - n
    {
      n := n + 1;
    }
  }

  /** The first pass: how long the packed strings are. */
  method PackedLength(buf: Bytes, count: nat, ghost strs: seq<Bytes>) returns (used: nat)
    requires count == |strs| && Packed(buf, 0, strs)
    ensures used == Total(strs)
  {
    used := 0;
    for i := 0 to count
      invariant Packed(buf, used, strs[i..]) && used + Total(strs[i..]) == Total(strs)
    {
      var n := Strlen(buf, used, strs[i]);
      assert strs[i..][1..] == strs[i + 1..];
      used := used + n + 1;
    }
  }

  /* ---------------- the code ---------------- */

  datatype Outcome = Ok | TooBig | Fault

  /** A range of bytes written to the stack. */
  datatype Range = Range(start: int, end: int)

  /** The writes lie in the mapped stack below the start, each below all the earlier ones. */
  ghost predicate Descending(written: seq<Range>, sp: int) {
    && (forall i :: 0 <= i < |written| ==> sp <= written[i].start <= written[i].end <= START)
    && (forall i, j :: 0 <= i < j < |written| ==> written[j].end <= written[i].start)
  }

  /** Nothing at or above `sp` has changed. */
  ghost predicate KeptFrom(mem: Memory, mem': Memory, sp: int) {
    forall a :: a >= sp && a in mem ==> a in mem' && mem'[a] == mem[a]
  }

  lemma {:induction false} BytesKept(mem: Memory, mem': Memory, sp: int, a: int, b: Bytes)
    requires KeptFrom(mem, mem', sp) && BytesAt(mem, a, b) && a >= sp
    ensures BytesAt(mem', a, b)
  {
  }

  /** All pointers lead to their strings, at or above `sp`. */
  ghost predicate Pointing(mem: Memory, sp: int, ptrs: seq<nat>, strs: seq<Bytes>) {
    |ptrs| == |strs| && forall i :: 0 <= i < |ptrs| ==> sp <= ptrs[i] < START && StringAt(mem, ptrs[i], strs[i])
  }

  lemma {:induction false} PointingKept(mem: Memory, mem': Memory, sp: int, ptrs: seq<nat>, strs: seq<Bytes>, low: int)
    requires KeptFrom(mem, mem', sp) && Pointing(mem, sp, ptrs, strs) && low <= sp
    ensures Pointing(mem', low, ptrs, strs)
  {
    forall i | 0 <= i < |ptrs|
      ensures StringAt(mem', ptrs[i], strs[i])
    {
      BytesKept(mem, mem', sp, ptrs[i], strs[i] + [0]);
    }
  }

  class UserStack {
    var mem: Memory
    ghost var written: seq<Range>

    constructor ()
      ensures written == []
    {
      mem, written := map[], [];
    }

    /** copy_to_user against the new address space, where just the stack is mapped. */
    method CopyToUser(a: int, b: Bytes) returns (ok: bool)
      modifies this
      ensures ok <==> STACK_LOW <= a && a + |b| <= STACK_TOP
      ensures ok ==> BytesAt(mem, a, b) && KeptFrom(old(mem), mem, a + |b|)
      ensures ok ==> written == old(written) + [Range(a, a + |b|)]
      ensures !ok ==> mem == old(mem) && written == old(written)
    {
      ok := STACK_LOW <= a && a + |b| <= STACK_TOP;
      if ok {
        for i := 0 to |b|
          invariant BytesAt(mem, a, b[..i])
          invariant forall x :: x in old(mem) && !(a <= x < a + |b|) ==> x in mem && mem[x] == old(mem)[x]
          invariant written == old(written)
        {
          mem := mem[a + i := b[i]];
        }
        assert b[..|b|] == b;
        written := written + [Range(a, a + |b|)];
      }
    }

    /** The string loops: copy each string below the last, rounding down to 16 bytes. */
    method PushStrings(buf: Bytes, count: nat, top: int, ghost strs: seq<Bytes>)
      returns (ok: bool, sp: int, ptrs: seq<nat>)
      requires count == |strs| && Packed(buf, 0, strs)
      requires top % 16 == 0 && STACK_LOW + Total(strs) + 15 * count <= top <= START
      requires Descending(written, top)
      modifies this
      ensures ok && top - Total(strs) - 15 * count <= sp <= top && sp % 16 == 0
      ensures Descending(written, sp) && KeptFrom(old(mem), mem, top)
      ensures Pointing(mem, sp, ptrs, strs)
    {
      hide Descending, KeptFrom, Pointing;
      sp, ptrs := top, [];
      var at: nat := 0;
      StartStrings(mem, top);
      for i := 0 to count
        invariant Packed(buf, at, strs[i..])
        invariant top - Total(strs) - 15 * i + Total(strs[i..]) <= sp <= top && sp % 16 == 0
        invariant Descending(written, sp) && KeptFrom(old(mem), mem, top)
        invariant |ptrs| == i && Pointing(mem, sp, ptrs, strs[..i])
      {
        ghost var before, mark, was := mem, sp, ptrs;
        assert strs[i..][0] == strs[i] && strs[i..][1..] == strs[i + 1..];
        sp, at := PushString(buf, at, sp, strs[i]);
        ptrs := ptrs + [sp];
        assert strs[..i + 1][..i] == strs[..i] && ptrs[..i] == was;
        OneMorePointer(before, mem, mark, ptrs, strs[..i + 1], sp);
        KeptTrans(old(mem), before, mem, top, mark);
      }
      ok := true;
      assert strs[..count] == strs;
    }

    method PushString(buf: Bytes, at: nat, top: int, ghost s: Bytes) returns (sp: int, next: nat)
      requires NoNul(s) && at + |s| < |buf| && buf[at..at + |s|] == s && buf[at + |s|] == 0
      requires STACK_LOW + |s| + 16 <= top <= START && top % 16 == 0 && Descending(written, top)
      modifies this
      ensures top - |s| - 16 <= sp < top && sp % 16 == 0 && next == at + |s| + 1
      ensures Descending(written, sp) && KeptFrom(old(mem), mem, top) && StringAt(mem, sp, s)
    {
      var len := Strlen(buf, at, s);
      len := len + 1;
      sp := (top - len) / 16 * 16;
      assert buf[at..at + len] == s + [0];
      var ok := CopyToUser(sp, buf[at..at + len]);
      next := at + len;
    }

    method PushWord(top: int, w: nat) returns (sp: int)
      requires w < U64 && STACK_LOW + 8 <= top <= START && Descending(written, top)
      modifies this
      ensures sp == top - 8 && WordAt(mem, sp, w)
      ensures Descending(written, sp) && KeptFrom(old(mem), mem, top)
    {
      sp := top - 8;
      var ok := CopyToUser(sp, Encode(w, 8));
    }

    /** A pointer array, terminator first, then the pointers from last to first. */
    method PushArray(ptrs: seq<nat>, top: int) returns (sp: int)
      requires STACK_LOW + 8 * (|ptrs| + 1) <= top <= START && Descending(written, top)
      requires forall i :: 0 <= i < |ptrs| ==> ptrs[i] < U64
      modifies this
      ensures sp == top - 8 * (|ptrs| + 1)
      ensures Descending(written, sp) && KeptFrom(old(mem), mem, top)
      ensures WordsAt(mem, sp, ptrs, 0) && WordAt(mem, sp + 8 * |ptrs|, 0)
    {
      hide Descending, KeptFrom, WordAt;
      KeptRefl(mem, top);
      ghost var before := mem;
      sp := PushWord(top, 0);
      var i := |ptrs|;
      while i > 0
        invariant 0 <= i <= |ptrs| && sp == top - 8 * (|ptrs| + 1 - i)
        invariant Descending(written, sp) && KeptFrom(before, mem, top)
        invariant WordsAt(mem, top - 8 * (|ptrs| + 1), ptrs, i) && WordAt(mem, top - 8, 0)
      {
        i := i - 1;
        ghost var was, mark := mem, sp;
        sp := PushWord(sp, ptrs[i]);
        KeptTrans(before, was, mem, top, mark);
        WordKept(was, mem, mark, top - 8, 0);
        WordsKept(was, mem, mark, top - 8 * (|ptrs| + 1), ptrs, i + 1);
      }
    }

    /**
     exec_build_stack.  It refuses exactly what exceeds the budget; otherwise it never faults,
     writes disjoint ranges inside the mapped stack, and leaves the layout the program expects.
     */
    method BuildStack(argvBuf: Bytes, argc: nat, envpBuf: Bytes, envc: nat, ghost argv: seq<Bytes>,
                      ghost envp: seq<Bytes>)
      returns (outcome: Outcome, sp: int)
      requires argc == |argv| <= ARG_MAX && envc == |envp| <= ARG_MAX
      requires Packed(argvBuf, 0, argv) && Packed(envpBuf, 0, envp) && written == []
      modifies this
      ensures outcome == if Total(argv) + Total(envp) + 8 * (argc + envc + 2) > BUDGET then TooBig else Ok
      ensures outcome.Ok? ==>
        && Layout(mem, sp, argv, envp)
        && STACK_LOW <= sp && Descending(written, sp)
        && (sp % 16 == 0 <==> (argc + envc) % 2 == 1)
      ensures !outcome.Ok? ==> mem == old(mem)
    {
      hide Descending, KeptFrom, WordAt, Pointing, WordsAt, Layout, Packed, Total;
      sp := START;
      var arglen := PackedLength(argvBuf, argc, argv);
      var envlen := PackedLength(envpBuf, envc, envp);
      if arglen + envlen + 8 * (argc + envc + 2) > BUDGET {
        return TooBig, sp;
      }
      NothingWritten();
      var ok, uargv, uenvp;
      ok, sp, uargv := PushStrings(argvBuf, argc, sp, argv);
      ghost var m1, s1 := mem, sp;
      ok, sp, uenvp := PushStrings(envpBuf, envc, sp, envp);
      ghost var m2, s2 := mem, sp;
      PointersFit(m1, s1, uargv, argv);
      PointersFit(m2, s2, uenvp, envp);
      sp := PushArray(uenvp, sp);
      ghost var m3, s3 := mem, sp;
      sp := PushArray(uargv, sp);
      ghost var m4, s4 := mem, sp;
      sp := PushWord(sp, argc);
      BuiltLayout(m1, s1, m2, s2, m3, s3, m4, s4, mem, sp, uargv, argv, uenvp, envp);
      Alignment(s2, argc + envc + 3, sp);
      return Ok, sp;
    }
  }

  lemma {:induction false} NothingWritten()
    ensures Descending([], START)
  {
  }

  lemma {:induction false} KeptRefl(mem: Memory, sp: int)
    ensures KeptFrom(mem, mem, sp)
  {
  }

  lemma {:induction false} WordKept(mem: Memory, mem': Memory, sp: int, a: int, w: nat)
    requires KeptFrom(mem, mem', sp) && WordAt(mem, a, w) && a >= sp
    ensures WordAt(mem', a, w)
  {
  }

  /** The words of an array from index `from` on. */
  ghost predicate WordsAt(mem: Memory, a: int, ptrs: seq<nat>, from: int) {
    forall k :: 0 <= from <= k < |ptrs| ==> WordAt(mem, a + 8 * k, ptrs[k])
  }

  lemma {:induction false} WordsKept(mem: Memory, mem': Memory, sp: int, a: int, ptrs: seq<nat>, from: nat)
    requires KeptFrom(mem, mem', sp) && WordsAt(mem, a, ptrs, from) && sp <= a + 8 * from
    ensures WordsAt(mem', a, ptrs, from)
  {
    forall k | from <= k < |ptrs|
      ensures WordAt(mem', a + 8 * k, ptrs[k])
    {
      WordKept(mem, mem', sp, a + 8 * k, ptrs[k]);
    }
  }

  lemma {:induction false} PointersFit(mem: Memory, sp: int, ptrs: seq<nat>, strs: seq<Bytes>)
    requires Pointing(mem, sp, ptrs, strs) && STACK_LOW <= sp
    ensures |ptrs| == |strs| && forall i :: 0 <= i < |ptrs| ==> 0 < ptrs[i] < U64
  {
  }

  lemma {:induction false} ArrayKept(mem: Memory, mem': Memory, sp: int, a: int, ptrs: seq<nat>, m0: Memory, s0: int,
                                     strs: seq<Bytes>)
    requires KeptFrom(mem, mem', sp) && sp <= a && WordsAt(mem, a, ptrs, 0) && WordAt(mem, a + 8 * |ptrs|, 0)
    requires KeptFrom(m0, mem', s0) && Pointing(m0, s0, ptrs, strs)
    requires forall i :: 0 <= i < |ptrs| ==> ptrs[i] != 0
    ensures StringsAt(mem', a, strs)
  {
    WordsKept(mem, mem', sp, a, ptrs, 0);
    WordKept(mem, mem', sp, a + 8 * |ptrs|, 0);
    PointingKept(m0, mem', s0, ptrs, strs, s0);
    assert ArrayAt(mem', a, ptrs, strs);
  }

  lemma {:induction false} BuiltLayout(m1: Memory, s1: int, m2: Memory, s2: int, m3: Memory, s3: int, m4: Memory,
                                       s4: int, mem: Memory, sp: int, uargv: seq<nat>, argv: seq<Bytes>,
                                       uenvp: seq<nat>, envp: seq<Bytes>)
    requires Pointing(m1, s1, uargv, argv) && Pointing(m2, s2, uenvp, envp)
    requires KeptFrom(m1, m2, s1) && KeptFrom(m2, m3, s2) && KeptFrom(m3, m4, s3) && KeptFrom(m4, mem, s4)
    requires s1 >= s2 && s3 == s2 - 8 * (|uenvp| + 1) && s4 == s3 - 8 * (|uargv| + 1) && sp == s4 - 8
    requires WordsAt(m3, s3, uenvp, 0) && WordAt(m3, s3 + 8 * |uenvp|, 0)
    requires WordsAt(m4, s4, uargv, 0) && WordAt(m4, s4 + 8 * |uargv|, 0)
    requires WordAt(mem, sp, |argv|)
    requires forall i :: 0 <= i < |uargv| ==> uargv[i] != 0
    requires forall i :: 0 <= i < |uenvp| ==> uenvp[i] != 0
    ensures Layout(mem, sp, argv, envp)
  {
    hide WordAt, WordsAt, StringAt;
    KeptTrans(m3, m4, mem, s3, s4);
    KeptTrans(m2, m3, mem, s2, s3);
    KeptTrans(m1, m2, mem, s1, s2);
    ArrayKept(m4, mem, s4, s4, uargv, m1, s1, argv);
    ArrayKept(m3, mem, s3, s3, uenvp, m2, s2, envp);
    assert s3 == sp + 16 + 8 * |argv|;
  }

  lemma {:induction false} StartStrings(mem: Memory, top: int)
    ensures KeptFrom(mem, mem, top) && Pointing(mem, top, [], [])
  {
  }

  lemma {:induction false} KeptTrans(a: Memory, b: Memory, c: Memory, top: int, sp: int)
    requires KeptFrom(a, b, top) && KeptFrom(b, c, sp) && sp <= top
    ensures KeptFrom(a, c, top)
  {
  }

  lemma {:induction false} OneMorePointer(mem: Memory, mem': Memory, sp: int, ptrs: seq<nat>, strs: seq<Bytes>,
                                          low: int)
    requires |ptrs| == |strs| > 0 && KeptFrom(mem, mem', sp) && low < sp <= START
    requires Pointing(mem, sp, ptrs[..|ptrs| - 1], strs[..|strs| - 1])
    requires ptrs[|ptrs| - 1] == low && StringAt(mem', low, strs[|strs| - 1])
    ensures Pointing(mem', low, ptrs, strs)
  {
    PointingKept(mem, mem', sp, ptrs[..|ptrs| - 1], strs[..|strs| - 1], low);
    assert forall i :: 0 <= i < |ptrs| - 1 ==> ptrs[i] == ptrs[..|ptrs| - 1][i] && strs[i] == strs[..|strs| - 1][i];
  }

  lemma {:induction false} Alignment(top: int, words: nat, sp: int)
    requires top % 16 == 0 && sp == top - 8 * words
    ensures sp % 16 == 0 <==> words % 2 == 0
  {
  }

  /** A program without arguments or environment starts with a stack that is not 16-byte aligned. */
  method MisalignedStart() returns (outcome: Outcome, sp: int)
    ensures outcome.Ok? && sp % 16 != 0
  {
    var stack := new UserStack();
    assert Total([]) == 0;
    outcome, sp := stack.BuildStack([], 0, [], 0, [], []);
  }
}
