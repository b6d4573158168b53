/**
 Signal delivery and return on amd64.  A 32-bit mask is the sequence of its bits; user memory is
 bytes by address, and whether a copy to it succeeds is a parameter.
 */
module Signal {
  import E = ExecStack
  import opened SigFrame

  const NSIG := 32
  const SIGKILL := 9
  const SIGSTOP := 19
  const SIGSEGV := 11
  const SIGUSR1 := 10
  const WORDS := 0x1_0000_0000_0000_0000
  const DFL := 0
  const IGN := 1
  const SYSCALL_LENGTH := 2
  const USER_CS := 0x2B
  const USER_SS := 0x23

  /** The bits of RFLAGS_SAFE_MASK, 0xED5. */
  const SAFE_FLAGS := {0, 2, 4, 6, 7, 9, 10, 11}

  datatype SaFlags = SaFlags(onStack: bool, restart: bool, noDefer: bool)

  datatype Action = Action(handler: Word64, mask: Mask, flags: SaFlags, restorer: Word64)

  datatype Signals = Signals(
    pending: Mask, blocked: Mask, actions: seq<Action>,
    ssSp: Word64, ssSize: Word64, ssActive: bool, onAltstack: bool,
    inSignal: bool, sigframeAddr: Word64, syscallRestartable: bool, restartSysno: Word32, restartFrame: bool)

  datatype Regs = Regs(rip: Word64, cs: Word64, rflags: Flags, rsp: Word64, ss: Word64, rax: Word64,
                       rdi: Word64, rsi: Word64, rdx: Word64, r10: Word64, r8: Word64, r9: Word64)

  datatype Default = Terminate | Core | Ignore | Stop | Continue

  predicate ValidSignal(sig: int) {
    1 <= sig < NSIG
  }

  predicate Unblockable(sig: int) {
    sig == SIGKILL || sig == SIGSTOP
  }

  function DefaultAction(sig: int): Default {
    if sig in {17, 23, 28} then Ignore
    else if sig in {19, 20, 21, 22} then Stop
    else if sig == 18 then Continue
    else if sig in {3, 4, 5, 6, 8, 11, 7} then Core
    else Terminate
  }

  function ByDefaultIs(sig: int): Delivery {
    match DefaultAction(sig)
    case Ignore => Discarded
    case Stop => Stopped
    case Continue => Continued
    case _ => Died
  }

  /** By default CHLD, URG and WINCH do nothing, STOP, TSTP, TTIN and TTOU stop, CONT continues; the rest kill. */
  lemma {:induction false} ByDefault(sig: int)
    requires ValidSignal(sig)
    ensures ByDefaultIs(sig) == Discarded <==> sig == 17 || sig == 23 || sig == 28
    ensures ByDefaultIs(sig) == Stopped <==> 19 <= sig <= 22
    ensures ByDefaultIs(sig) == Continued <==> sig == 18
    ensures ByDefaultIs(sig) == Died <==> sig < 17 || 24 <= sig <= 27 || 29 <= sig
    ensures DefaultAction(sig) == Core <==> 3 <= sig <= 8 || sig == 11
  {
  }

  function Wrap(x: int): Word64 {
    x % WORDS
  }

  /** SIGKILL and SIGSTOP are never blocked, never in a handler's mask and never caught or ignored. */
  ghost predicate Ok(s: Signals) {
    && |s.actions| == NSIG
    && !s.blocked[SIGKILL] && !s.blocked[SIGSTOP]
    && s.actions[SIGKILL].handler == s.actions[SIGSTOP].handler == DFL
  }

  // ----- Delivery to a handler and return from it -----

  function Restarts(s: Signals, sig: int): bool
    requires |s.actions| == NSIG && ValidSignal(sig)
  {
    s.syscallRestartable && s.actions[sig].flags.restart
  }

  function SavedMask(blocked: Mask): (m: Mask) {
    seq(NSIG, i requires 0 <= i < NSIG => i >= 1 && blocked[i])
  }

  function FrameFor(s: Signals, r: Regs, sig: int): (f: Frame)
    requires |s.actions| == NSIG && ValidSignal(sig)
    ensures Proper(f)
  {
    var restart := Restarts(s, sig);
    Frame(sig, if restart then Wrap(r.rip - SYSCALL_LENGTH) else r.rip, r.cs, r.rflags, r.rsp, r.ss, r.rax,
          SavedMask(s.blocked),
          if restart then Some(Restart(s.restartSysno, [r.rdi, r.rsi, r.rdx, r.r10, r.r8, r.r9])) else None)
  }

  /** The mask a handler runs under; slot 0 belongs to no signal and keeps its value. */
  function HandlerMask(s: Signals, sig: int): Mask
    requires |s.actions| == NSIG && ValidSignal(sig)
  {
    seq(NSIG, i requires 0 <= i < NSIG =>
      if i == 0 then s.blocked[0] else
      !Unblockable(i) && (s.blocked[i] || s.actions[sig].mask[i] || (i == sig && !s.actions[sig].flags.noDefer)))
  }

  function StackTop(s: Signals, r: Regs, sig: int): Word64
    requires |s.actions| == NSIG && ValidSignal(sig)
  {
    if s.actions[sig].flags.onStack && s.ssActive && !s.onAltstack then Wrap(s.ssSp + s.ssSize) else r.rsp
  }

  /** The frame lies right below the restorer's address, or at the top without one. */
  function FrameAddr(s: Signals, r: Regs, sig: int): Word64
    requires |s.actions| == NSIG && ValidSignal(sig)
  {
    Wrap(EntryRsp(s, r, sig) - (if s.actions[sig].restorer != 0 then FRAME_SIZE else 0))
  }

  function EntryRsp(s: Signals, r: Regs, sig: int): Word64
    requires |s.actions| == NSIG && ValidSignal(sig)
  {
    Wrap(StackTop(s, r, sig) - (if s.actions[sig].restorer != 0 then 8 else FRAME_SIZE))
  }

  function Entered(s: Signals, r: Regs, sig: int): Signals
    requires |s.actions| == NSIG && ValidSignal(sig)
  {
    var a := FrameAddr(s, r, sig);
    s.(pending := s.pending[sig := false], blocked := HandlerMask(s, sig),
       restartFrame := s.restartFrame || Restarts(s, sig), inSignal := true,
       onAltstack := s.ssSp <= a < Wrap(s.ssSp + s.ssSize), sigframeAddr := a)
  }

  function EnteredRegs(s: Signals, r: Regs, sig: int): Regs
    requires |s.actions| == NSIG && ValidSignal(sig)
  {
    r.(rsp := EntryRsp(s, r, sig), rdi := sig, rip := s.actions[sig].handler)
  }

  function RestoredMask(mask: Mask): Mask {
    seq(NSIG, i requires 0 <= i < NSIG => i >= 1 && mask[i] && !Unblockable(i))
  }

  function Returned(s: Signals, f: Frame): Signals {
    s.(blocked := RestoredMask(f.mask), inSignal := false, onAltstack := false, sigframeAddr := 0,
       restartSysno := if f.restart.Some? then f.restart.value.sysno else s.restartSysno)
  }

  /** The two words agree in every safe flag bit. */
  ghost predicate SafeAlike(x: Flags, y: Flags) {
    forall i :: i in SAFE_FLAGS ==> x[i] == y[i]
  }

  /** Only the safe flag bits come from a frame; bit 1 is always set. */
  function FlagsFrom(x: Flags): Flags {
    seq(64, i requires 0 <= i < 64 => i == 1 || (i in SAFE_FLAGS && x[i]))
  }

  /** The registers after sigreturn and the dispatch that writes its result into rax. */
  function ReturnedRegs(r: Regs, f: Frame): Regs
    requires Proper(f)
  {
    var r1 := r.(rip := f.rip, cs := USER_CS, rflags := FlagsFrom(f.rflags), rsp := f.rsp, ss := USER_SS);
    match f.restart
    case None => r1.(rax := f.rax)
    case Some(a) =>
      r1.(rdi := a.args[0], rsi := a.args[1], rdx := a.args[2], r10 := a.args[3], r8 := a.args[4], r9 := a.args[5],
          rax := a.sysno + 1024)
  }

  lemma {:induction false} EnteredOk(s: Signals, r: Regs, sig: int)
    requires Ok(s) && ValidSignal(sig)
    ensures Ok(Entered(s, r, sig))
  {
  }

  lemma {:induction false} ReturnedOk(s: Signals, f: Frame)
    requires Ok(s)
    ensures Ok(Returned(s, f))
  {
  }

  /** The mask computed bit by bit from the packed one is the handler's mask. */
  lemma {:induction false} MixedMask(s: Signals, sig: int)
    requires Ok(s) && ValidSignal(sig)
    ensures var self := if s.actions[sig].flags.noDefer then None else Some(sig);
      [s.blocked[0]] + Mix(SavedMask(s.blocked), s.actions[sig].mask, self)[1..] == HandlerMask(s, sig)
  {
  }

  /** Where sigreturn looks for its frame. */
  function FrameToReturn(s: Signals, r: Regs): Word64 {
    if s.sigframeAddr != 0 then s.sigframeAddr else r.rsp
  }

  /**
   Whatever the handler did to the registers and to the rest of memory, returning through an
   untouched frame resumes the interrupted code where it was, or at the system call instruction with
   its number and arguments.  `mem` is the memory the delivery left; `s1`, `r1` and `mem1` are the
   state at the return, after no other delivery or return.
   */
  lemma {:induction false} RoundTrip(s: Signals, r: Regs, sig: int, mem: E.Memory, s1: Signals, r1: Regs,
                                     mem1: E.Memory)
    requires Ok(s) && ValidSignal(sig)
    requires s1.sigframeAddr == FrameAddr(s, r, sig) != 0
    requires FrameLies(mem, s1.sigframeAddr, FrameFor(s, r, sig))
    requires forall x :: s1.sigframeAddr <= x < s1.sigframeAddr + FRAME_SIZE ==> x in mem1 && mem1[x] == mem[x]
    ensures Readable(mem1, FrameToReturn(s1, r1), FRAME_SIZE)
    ensures var f := FrameIn(mem1, FrameToReturn(s1, r1));
      Resumes(s, r, sig, Returned(s1, f), ReturnedRegs(r1, f))
  {
    hide Wrap, FrameAddr, FrameIn;
    FrameUntouched(mem, mem1, s1.sigframeAddr);
  }

  /** The bytes at `a` are the frame. */
  ghost predicate FrameLies(mem: E.Memory, a: int, f: Frame) {
    Readable(mem, a, FRAME_SIZE) && FrameIn(mem, a) == f
  }

  /** The context and mask are the interrupted ones, or the interrupted call starts over. */
  ghost predicate Resumes(s: Signals, r: Regs, sig: int, s2: Signals, r2: Regs)
    requires Ok(s) && ValidSignal(sig)
  {
    && r2.rsp == r.rsp && SafeAlike(r2.rflags, r.rflags) && r2.cs == USER_CS && r2.ss == USER_SS
    && (forall i :: 1 <= i < NSIG ==> s2.blocked[i] == s.blocked[i])
    && !s2.inSignal && !s2.onAltstack
    && (!Restarts(s, sig) ==> r2.rip == r.rip && r2.rax == r.rax)
    && (Restarts(s, sig) ==>
          && r2.rip == Wrap(r.rip - SYSCALL_LENGTH) && r2.rax == s.restartSysno + 1024
          && s2.restartSysno == s.restartSysno
          && r2.rdi == r.rdi && r2.rsi == r.rsi && r2.rdx == r.rdx && r2.r10 == r.r10 && r2.r8 == r.r8 && r2.r9 == r.r9)
  }

  /** The frame and the restorer's address above it do not overlap, and both lie below the interrupted stack. */
  lemma {:induction false} FrameBelow(s: Signals, r: Regs, sig: int)
    requires Ok(s) && ValidSignal(sig) && FRAME_SIZE + 8 <= StackTop(s, r, sig)
    ensures var a, sp := FrameAddr(s, r, sig), EntryRsp(s, r, sig);
      if s.actions[sig].restorer != 0 then a + FRAME_SIZE == sp && sp + 8 == StackTop(s, r, sig)
      else a == sp && a + FRAME_SIZE == StackTop(s, r, sig)
  {
  }

  /**
   What a handler starts with: its signal in rdi and no longer pending, the signals of sa_mask and,
   without SA_NODEFER, its own blocked, and no other that was not, KILL and STOP never.
   */
  lemma {:induction false} HandlerStarts(s: Signals, r: Regs, sig: int, i: int)
    requires Ok(s) && ValidSignal(sig) && ValidSignal(i)
    ensures var r' := EnteredRegs(s, r, sig);
      && r'.rdi == sig && r'.rip == s.actions[sig].handler
      && r'.rax == r.rax && r'.rflags == r.rflags && r'.rsi == r.rsi && r'.rdx == r.rdx
    ensures var s', action := Entered(s, r, sig), s.actions[sig];
      && s'.pending[i] == (s.pending[i] && i != sig)
      && s'.actions == s.actions && s'.inSignal
      && (i == SIGKILL || i == SIGSTOP ==> !s'.blocked[i])
      && (i != SIGKILL && i != SIGSTOP ==>
            && (s.blocked[i] || action.mask[i] ==> s'.blocked[i])
            && (i == sig && !action.flags.noDefer ==> s'.blocked[i])
            && (s'.blocked[i] ==> s.blocked[i] || action.mask[i] || (i == sig && !action.flags.noDefer)))
  {
  }

  /**
   With SA_ONSTACK and an alternate stack that is not in use, large enough, the whole frame lies on
   that stack, which counts as in use from then on; else the frame lies below the interrupted stack.
   */
  lemma {:induction false} StackUsed(s: Signals, r: Regs, sig: int)
    requires Ok(s) && ValidSignal(sig)
    ensures var a, sp := Entered(s, r, sig).sigframeAddr, EnteredRegs(s, r, sig).rsp;
      if s.actions[sig].flags.onStack && s.ssActive && !s.onAltstack then
        FRAME_SIZE + 8 <= s.ssSize < WORDS - s.ssSp ==>
          s.ssSp <= a <= sp < s.ssSp + s.ssSize && a + FRAME_SIZE <= s.ssSp + s.ssSize && Entered(s, r, sig).onAltstack
      else
        FRAME_SIZE + 8 <= r.rsp ==> 0 <= a <= sp < r.rsp && a + FRAME_SIZE <= r.rsp
  {
    hide Wrap, HandlerMask;
    WrapSmall(s.ssSp + s.ssSize);
    if FRAME_SIZE + 8 <= StackTop(s, r, sig) {
      FrameBelow(s, r, sig);
    }
  }

  lemma {:induction false} WrapSmall(x: int)
    ensures 0 <= x < WORDS ==> Wrap(x) == x
  {
  }

  /**
   A signal `sig` delivered while the handler of `sig0` runs, as a fault does, and returned from,
   leaves no frame address behind.  The outer handler's own return then reads a frame at its stack
   pointer.  With a restorer that is the interrupted stack and never its frame; without one it is
   its frame exactly when the handler returns with the stack pointer it was entered with.
   */
  lemma {:induction false} NestedReturn(s0: Signals, r0: Regs, sig0: int, s: Signals, r: Regs, sig: int, f: Frame,
                                        r1: Regs)
    requires Ok(s0) && ValidSignal(sig0) && FRAME_SIZE + 8 <= StackTop(s0, r0, sig0)
    requires Ok(s) && ValidSignal(sig)
    ensures var a := FrameToReturn(Returned(Entered(s, r, sig), f), r1);
      if s0.actions[sig0].restorer != 0 then
        r1.rsp == Wrap(EntryRsp(s0, r0, sig0) + 8) ==> a == StackTop(s0, r0, sig0) != FrameAddr(s0, r0, sig0)
      else a == FrameAddr(s0, r0, sig0) <==> r1.rsp == EntryRsp(s0, r0, sig0)
  {
    FrameBelow(s0, r0, sig0);
  }

  /** Handlers with a restorer for SIGUSR1 and SIGSEGV, nothing pending or blocked. */
  function TwoHandlers(): Signals {
    var none: Mask := seq(NSIG, _ => false);
    var a := Action(DFL, none, SaFlags(false, false, false), 0);
    var h := Action(0x40_0000, none, SaFlags(false, false, false), 0x40_1000);
    Signals(none, none, seq(NSIG, _ => a)[SIGUSR1 := h][SIGSEGV := h], 0, 0, false, false, false, 0, false, 0, false)
  }

  function AtStack(rsp: Word64): Regs {
    Regs(0x40_2000, USER_CS, seq(64, _ => false), rsp, USER_SS, 0, 0, 0, 0, 0, 0, 0)
  }

  // ----- A process -----

  datatype Delivery = Invalid | Postponed | Discarded | Stopped | Continued | Died | Caught | Fault

  datatype How = Block | Unblock | SetMask | Other

  /** sys_sigprocmask on the blocked set. */
  function NewMask(blocked: Mask, how: How, set_: Mask): (m: Mask)
    requires !how.Other?
  {
    seq(NSIG, i requires 0 <= i < NSIG =>
      !Unblockable(i) && (match how
                          case Block => blocked[i] || set_[i]
                          case Unblock => blocked[i] && !set_[i]
                          case SetMask => set_[i]
                          case Other => false))
  }

  class Process {
    var s: Signals
    var regs: Regs

    /** User memory. */
    var mem: E.Memory

    var stopped: bool
    var continued: bool
    var exitSig: int
    var exited: bool

    ghost predicate Valid()
      reads this
    {
      Ok(s)
    }

    /** signal_has_pending. */
    method HasPending() returns (yes: bool)
      requires Valid()
      ensures yes <==> exists sig :: ValidSignal(sig) && Deliverable(s, sig)
    {
      for sig := 1 to NSIG
        invariant forall k :: 1 <= k < sig ==> !Deliverable(s, k)
      {
        if s.pending[sig] && (!s.blocked[sig] || Unblockable(sig)) {
          assert Deliverable(s, sig);
          return true;
        }
      }
      return false;
    }

    /** The loop that packs the blocked set. */
    method PackMask() returns (m: Mask)
      requires Valid()
      ensures m == SavedMask(s.blocked)
    {
      m := seq(NSIG, _ => false);
      for i := 1 to NSIG
        invariant forall k :: 0 <= k < NSIG ==> (m[k] <==> 1 <= k < i && s.blocked[k])
      {
        if s.blocked[i] {
          m := m[i := true];
        }
      }
    }

    /** The loop that stores a handler's mask: slot 0 is left alone. */
    method StoreMask(m: Mask)
      modifies this`s
      ensures s == old(s).(blocked := [old(s).blocked[0]] + m[1..])
    {
      var b := s.blocked;
      for i := 1 to NSIG
        invariant b[..i] == [s.blocked[0]] + m[1..i] && b[i..] == s.blocked[i..]
      {
        assert m[1..i + 1] == m[1..i] + [m[i]];
        b := b[i := m[i]];
      }
      assert b[..NSIG] == b && m[1..NSIG] == m[1..] && b == [s.blocked[0]] + m[1..];
      s := s.(blocked := b);
    }

    /** sigreturn_restore_mask. */
    method RestoreMask(mask: Mask)
      modifies this`s
      ensures s == old(s).(blocked := RestoredMask(mask))
    {
      var b: Mask := seq(NSIG, _ => false);
      for i := 1 to NSIG
        invariant forall k :: 0 <= k < NSIG ==> (b[k] <==> 1 <= k < i && mask[k] && !Unblockable(k))
      {
        if mask[i] && !Unblockable(i) {
          b := b[i := true];
        }
      }
      assert b == RestoredMask(mask);
      s := s.(blocked := b);
    }

    /** signal_deliver. */
    method Deliver(sig: int, junk: seq<Word64>, frameOk: bool, restorerOk: bool) returns (d: Delivery)
      requires Valid() && |junk| == ARGS
      modifies this
      ensures Valid()
      ensures d.Invalid? <==> !ValidSignal(sig)
      ensures d.Postponed? <==> ValidSignal(sig) && old(s).blocked[sig]
      ensures d.Invalid? || d.Fault? ==> s == old(s) && regs == old(regs)
      ensures d.Postponed? ==> s == old(s).(pending := old(s).pending[sig := true]) && regs == old(regs)
      ensures d in {Discarded, Stopped, Continued} ==>
        s == old(s).(pending := old(s).pending[sig := false]) && regs == old(regs)
      ensures d in {Caught, Fault} <==>
        ValidSignal(sig) && !old(s).blocked[sig] && old(s).actions[sig].handler !in {DFL, IGN}
      ensures d.Fault? ==> !Copied(old(s), sig, frameOk, restorerOk)
      ensures d.Caught? ==> Copied(old(s), sig, frameOk, restorerOk)
      ensures d.Caught? ==>
        && s == Entered(old(s), old(regs), sig) && regs == EnteredRegs(old(s), old(regs), sig)
        && FrameLies(mem, s.sigframeAddr, FrameFor(old(s), old(regs), sig))
        && (old(s).actions[sig].restorer != 0 ==> WordLies(mem, regs.rsp, old(s).actions[sig].restorer))
      ensures d.Caught? || d.Fault? ==> WrittenBelow(old(mem), mem, old(s), old(regs), sig)
      ensures !d.Caught? && !d.Fault? ==> mem == old(mem)
      ensures d.Died? <==>
        && ValidSignal(sig) && !old(s).blocked[sig] && old(s).actions[sig].handler == DFL
        && DefaultAction(sig) in {Terminate, Core}
      ensures d.Died? ==> exited && exitSig == sig
      ensures !d.Died? ==> exited == old(exited)
      ensures ValidSignal(sig) && !old(s).blocked[sig] && old(s).actions[sig].handler == DFL ==> d == ByDefaultIs(sig)
      ensures ValidSignal(sig) && !old(s).blocked[sig] && old(s).actions[sig].handler == IGN ==> d.Discarded?
      ensures d.Stopped? ==> stopped && !continued && exitSig == sig
      ensures d.Continued? ==> !stopped && (old(stopped) ==> continued)
      ensures !d.Stopped? && !d.Continued? ==> stopped == old(stopped) && continued == old(continued)
    {
      hide Entered, EnteredRegs, FrameFor, FrameLies, WordLies, WrittenBelow;
      if !ValidSignal(sig) {
        return Invalid;
      }
      if s.blocked[sig] && !Unblockable(sig) {
        s := s.(pending := s.pending[sig := true]);
        return Postponed;
      }
      var h := s.actions[sig].handler;
      if h == IGN {
        s := s.(pending := s.pending[sig := false]);
        return Discarded;
      }
      if h == DFL {
        d := ByDefault(sig);
        return;
      }
      d := Catch(sig, junk, frameOk, restorerOk);
    }

    /** The default actions. */
    method ByDefault(sig: int) returns (d: Delivery)
      requires Valid() && ValidSignal(sig)
      modifies this`s, this`stopped, this`continued, this`exitSig, this`exited
      ensures Valid()
      ensures d in {Discarded, Stopped, Continued} ==> s == old(s).(pending := old(s).pending[sig := false])
      ensures d.Died? ==> exited && exitSig == sig && s == old(s)
      ensures d == ByDefaultIs(sig) && (!d.Died? ==> exited == old(exited))
      ensures !d.Stopped? && !d.Continued? ==> stopped == old(stopped) && continued == old(continued)
      ensures d.Stopped? ==> stopped && !continued && exitSig == sig
      ensures d.Continued? ==> !stopped && (old(stopped) ==> continued)
    {
      match DefaultAction(sig) {
        case Ignore =>
          d := Discarded;
        case Stop =>
          stopped, continued, exitSig, d := true, false, sig, Stopped;
        case Continue =>
          continued, stopped, d := continued || stopped, false, Continued;
        case _ =>
          exitSig, exited := sig, true;
          return Died;
      }
      s := s.(pending := s.pending[sig := false]);
    }

    /** The part of signal_deliver that builds the frame: kernel state changes only after both copies. */
    method Catch(sig: int, junk: seq<Word64>, frameOk: bool, restorerOk: bool) returns (d: Delivery)
      requires Valid() && ValidSignal(sig) && s.actions[sig].handler != DFL && |junk| == ARGS
      modifies this`s, this`regs, this`mem
      ensures Valid()
      ensures d == if frameOk && (old(s).actions[sig].restorer == 0 || restorerOk) then Caught else Fault
      ensures d.Fault? ==> s == old(s) && regs == old(regs)
      ensures WrittenBelow(old(mem), mem, old(s), old(regs), sig)
      ensures d.Caught? ==>
        && s == Entered(old(s), old(regs), sig) && regs == EnteredRegs(old(s), old(regs), sig)
        && FrameLies(mem, s.sigframeAddr, FrameFor(old(s), old(regs), sig))
        && (old(s).actions[sig].restorer != 0 ==> WordLies(mem, regs.rsp, old(s).actions[sig].restorer))
    {
      hide Wrap, SavedMask, HandlerMask, Mix, EntryRsp, FrameAddr, WrittenBelow, Entered, EnteredRegs;
      hide FrameWords, Flat, Written, FrameLies, WordLies;
      MixedMask(s, sig);
      var act := s.actions[sig];
      var restart := s.syscallRestartable && act.flags.restart;
      var oldMask := PackMask();
      var frame := Frame(sig, if restart then Wrap(regs.rip - SYSCALL_LENGTH) else regs.rip, regs.cs, regs.rflags,
                         regs.rsp, regs.ss, regs.rax, oldMask,
                         if restart then Some(Restart(s.restartSysno, ArgsOf(regs))) else None);
      var newMask := Mix(oldMask, act.mask, if act.flags.noDefer then None else Some(sig));
      var rsp := EntryRsp(s, regs, sig);
      var frameAddr := FrameAddr(s, regs, sig);
      if !frameOk {
        NothingWritten(mem, s, regs, sig);
        return Fault;
      }
      CopiedOut(mem, s, regs, sig, frame, junk, act.restorer);
      mem := Written(mem, frameAddr, Flat(FrameWords(frame, junk)));
      if act.restorer != 0 && !restorerOk {
        return Fault;
      }
      if act.restorer != 0 {
        mem := Written(mem, rsp, E.Encode(act.restorer, 8));
      }
      Commit(sig, newMask, frameAddr, rsp, restart);
      return Caught;
    }

    /** The kernel's side of a delivery, after the copies. */
    method Commit(sig: int, newMask: Mask, frameAddr: int, rsp: int, restart: bool)
      requires Valid() && ValidSignal(sig)
      requires [s.blocked[0]] + newMask[1..] == HandlerMask(s, sig) && restart == Restarts(s, sig)
      requires frameAddr == FrameAddr(s, regs, sig) && rsp == EntryRsp(s, regs, sig)
      modifies this`s, this`regs
      ensures Valid() && s == Entered(old(s), old(regs), sig) && regs == EnteredRegs(old(s), old(regs), sig)
      ensures s.sigframeAddr == frameAddr && regs.rsp == rsp
    {
      hide Wrap, HandlerMask, EntryRsp, FrameAddr;
      EnteredOk(s, regs, sig);
      s := s.(pending := s.pending[sig := false]);
      StoreMask(newMask);
      s := s.(restartFrame := s.restartFrame || restart, inSignal := true, sigframeAddr := frameAddr,
              onAltstack := s.ssSp <= frameAddr < Wrap(s.ssSp + s.ssSize));
      regs := regs.(rsp := rsp, rdi := sig, rip := s.actions[sig].handler);
    }

    /** signal_check_pending: the lowest deliverable signal, unless a handler is running. */
    method CheckPending(junk: seq<Word64>, frameOk: bool, restorerOk: bool) returns (sig: Option<int>)
      requires Valid() && |junk| == ARGS
      modifies this
      ensures Valid()
      ensures sig.None? <==> old(s).inSignal || forall k :: ValidSignal(k) ==> !Deliverable(old(s), k)
      ensures sig.None? ==> s == old(s) && regs == old(regs)
      ensures sig.Some? ==> ValidSignal(sig.value) && Deliverable(old(s), sig.value)
      ensures sig.Some? ==> forall k :: 1 <= k < sig.value ==> !Deliverable(old(s), k)
      ensures sig.Some? ==> exited || !s.pending[sig.value]
      ensures sig.None? ==> exited == old(exited)
      ensures sig.Some? ==> var h := old(s).actions[sig.value].handler;
        && (h == IGN || (h == DFL && ByDefaultIs(sig.value) != Died) ==> exited == old(exited))
        && (h == DFL && ByDefaultIs(sig.value) == Died ==> exited)
        && (h !in {DFL, IGN} && Copied(old(s), sig.value, frameOk, restorerOk) ==>
            exited == old(exited) && s == Entered(old(s), old(regs), sig.value))
        && (h !in {DFL, IGN} && !Copied(old(s), sig.value, frameOk, restorerOk) ==>
            exited && exitSig == SIGSEGV && s == old(s).(pending := old(s).pending[sig.value := false]))
    {
      if s.inSignal {
        return None;
      }
      for k := 1 to NSIG
        invariant s == old(s) && regs == old(regs) && exited == old(exited) && exitSig == old(exitSig)
        invariant forall j :: 1 <= j < k ==> !Deliverable(old(s), j)
      {
        if s.pending[k] && (!s.blocked[k] || Unblockable(k)) {
          assert Deliverable(old(s), k);
          var d := Deliver(k, junk, frameOk, restorerOk);
          if d.Fault? {
            s := s.(pending := s.pending[k := false]);
            exitSig, exited := SIGSEGV, true;
          }
          return Some(k);
        }
      }
      return None;
    }

    /**
     The end of mmap_fault_handler: a fault is delivered at once, whether or not a handler is
     running, never as a system call to restart.
     */
    method FaultSignal(junk: seq<Word64>, frameOk: bool, restorerOk: bool) returns (d: Delivery)
      requires Valid() && |junk| == ARGS
      modifies this
      ensures Valid()
      ensures var s0 := old(s).(syscallRestartable := false);
        && (d in {Caught, Fault} <==> !s0.blocked[SIGSEGV] && s0.actions[SIGSEGV].handler !in {DFL, IGN})
        && (d.Caught? ==>
              && s == Entered(s0, old(regs), SIGSEGV) && regs == EnteredRegs(s0, old(regs), SIGSEGV)
              && FrameLies(mem, s.sigframeAddr, FrameFor(s0, old(regs), SIGSEGV)))
        && (d.Fault? <==> !Copied(s0, SIGSEGV, frameOk, restorerOk) && d in {Caught, Fault})
        && (d.Fault? ==> exited && exitSig == SIGSEGV && s.pending[SIGSEGV])
    {
      s := s.(syscallRestartable := false);
      d := Deliver(SIGSEGV, junk, frameOk, restorerOk);
      if d.Fault? {
        s := s.(pending := s.pending[SIGSEGV := true]);
        exitSig, exited := SIGSEGV, true;
      }
    }

    /** The registers and the restart number out of a frame. */
    method RestoreContext(f: Frame)
      requires Proper(f)
      modifies this`s, this`regs
      ensures regs == ReturnedRegs(old(regs), f)
      ensures s == old(s).(restartSysno := if f.restart.Some? then f.restart.value.sysno else old(s).restartSysno)
    {
      hide FlagsFrom;
      regs := regs.(rip := f.rip, cs := USER_CS, rflags := FlagsFrom(f.rflags), rsp := f.rsp, ss := USER_SS);
      if f.restart.Some? {
        var a := f.restart.value.args;
        regs := regs.(rdi := a[0], rsi := a[1], rdx := a[2], r10 := a[3], r8 := a[4], r9 := a[5]);
        s := s.(restartSysno := f.restart.value.sysno);
        regs := regs.(rax := f.restart.value.sysno + 1024);
      } else {
        regs := regs.(rax := f.rax);
      }
    }

    /** sys_sigreturn on what user memory holds at the frame's address. */
    method Sigreturn() returns (ok: bool)
      requires Valid()
      modifies this`s, this`regs
      ensures Valid()
      ensures var a := FrameToReturn(old(s), old(regs));
        && (ok <==> Readable(mem, a, FRAME_SIZE))
        && (ok ==> s == Returned(old(s), FrameIn(mem, a)) && regs == ReturnedRegs(old(regs), FrameIn(mem, a)))
        && (!ok ==> s == old(s) && regs == old(regs))
    {
      hide ReturnedRegs, RestoredMask, FrameIn;
      var a := if s.sigframeAddr != 0 then s.sigframeAddr else regs.rsp;
      if !Readable(mem, a, FRAME_SIZE) {
        return false;
      }
      var f := FrameIn(mem, a);
      ReturnedOk(s, f);
      RestoreContext(f);
      RestoreMask(f.mask);
      s := s.(inSignal := false, onAltstack := false, sigframeAddr := 0);
      return true;
    }

    /**
     sys_sigprocmask.  `oldset` says whether the old mask is wanted and can be copied out, `set_`
     whether a new one is given and can be read.
     */
    method Sigprocmask(how: How, oldset: Option<bool>, set_: Option<Option<Mask>>)
      returns (r: Answer, old_: Option<Mask>)
      requires Valid()
      modifies this`s
      ensures Valid()
      ensures r ==
        if oldset == Some(false) || set_ == Some(None) then BadAddress
        else if set_.Some? && how.Other? then BadArgument
        else Success
      ensures old_.Some? ==> old_.value == SavedMask(old(s).blocked)
      ensures old_.Some? <==> oldset == Some(true)
      ensures r.Success? && set_.Some? ==> s == old(s).(blocked := NewMask(old(s).blocked, how, set_.value.value))
      ensures !(r.Success? && set_.Some?) ==> s == old(s)
    {
      old_ := None;
      if oldset.Some? {
        var m := PackMask();
        if !oldset.value {
          return BadAddress, None;
        }
        old_ := Some(m);
      }
      if set_.None? {
        return Success, old_;
      }
      if set_.value.None? {
        return BadAddress, old_;
      }
      if how.Other? {
        return BadArgument, old_;
      }
      Apply(how, set_.value.value);
      return Success, old_;
    }

    method Apply(how: How, m: Mask)
      requires Valid() && !how.Other?
      modifies this`s
      ensures Valid() && s == old(s).(blocked := NewMask(old(s).blocked, how, m))
    {
      var b: Mask := if how.SetMask? then seq(NSIG, _ => false) else s.blocked;
      var start := b;
      for i := 0 to NSIG
        invariant forall k :: i <= k < NSIG ==> b[k] == start[k]
        invariant forall k :: 0 <= k < i ==> b[k] == if m[k] && !Unblockable(k) then !how.Unblock? else start[k]
      {
        if m[i] && !Unblockable(i) {
          b := b[i := !how.Unblock?];
        }
      }
      b := b[SIGKILL := false][SIGSTOP := false];
      assert b == NewMask(s.blocked, how, m);
      s := s.(blocked := b);
    }

    /** sys_sigsuspend up to its sleep. */
    method SuspendBegin(m: Mask) returns (saved: Mask, sleeps: bool)
      requires Valid()
      modifies this`s
      ensures Valid() && saved == old(s).blocked && s == old(s).(blocked := NewMask(saved, SetMask, m))
      ensures sleeps <==> forall k :: ValidSignal(k) ==> !Deliverable(s, k)
    {
      saved := s.blocked;
      Apply(SetMask, m);
      var pending := HasPending();
      sleeps := !pending;
    }

    /** And after it: what the sleep left deliverable stays so exactly when the old mask lets it through. */
    method SuspendEnd(saved: Mask)
      requires Valid() && !saved[SIGKILL] && !saved[SIGSTOP]
      modifies this`s
      ensures Valid() && s == old(s).(blocked := saved)
      ensures forall k :: ValidSignal(k) && Deliverable(old(s), k) ==> (Deliverable(s, k) <==> !saved[k])
    {
      s := s.(blocked := saved);
    }

    /** sys_sigsuspend; `arrived` is what comes in during the sleep.  The mask is what it was. */
    method Sigsuspend(m: Mask, arrived: Mask) returns (slept: bool)
      requires Valid()
      modifies this`s
      ensures Valid()
      ensures slept <==>
        forall k :: ValidSignal(k) ==> !Deliverable(old(s).(blocked := NewMask(old(s).blocked, SetMask, m)), k)
      ensures s == old(s).(pending := Either(old(s).pending, if slept then arrived else old(s).pending))
    {
      hide NewMask;
      var saved;
      saved, slept := SuspendBegin(m);
      s := s.(pending := Either(s.pending, if slept then arrived else s.pending));
      SuspendEnd(saved);
    }

    /**
     sys_sigsuspend and the check on the way back to user mode.  A signal that ended the suspension
     is delivered only if the old mask does not block it: otherwise it stays pending, its handler not
     run.
     */
    method SuspendAndReturn(m: Mask, arrived: Mask, junk: seq<Word64>, frameOk: bool, restorerOk: bool)
      returns (slept: bool, sig: Option<int>)
      requires Valid() && !s.inSignal && |junk| == ARGS
      modifies this
      ensures Valid()
      ensures slept <==>
        forall k :: ValidSignal(k) ==> !Deliverable(old(s).(blocked := NewMask(old(s).blocked, SetMask, m)), k)
      ensures var came := old(s).(pending := Either(old(s).pending, if slept then arrived else old(s).pending));
        && (sig.None? <==> forall k :: ValidSignal(k) && came.pending[k] ==> came.blocked[k])
        && (sig.None? ==> s == came)
        && (sig.Some? ==> ValidSignal(sig.value) && came.pending[sig.value] && !came.blocked[sig.value])
        && (sig.Some? ==> forall k :: 1 <= k < sig.value && came.pending[k] ==> came.blocked[k])
    {
      hide NewMask, Either, Entered, Deliverable;
      slept := Sigsuspend(m, arrived);
      ghost var came := s;
      DeliverableIff(came);
      sig := CheckPending(junk, frameOk, restorerOk);
    }

    /** sys_sigaction; `oldOk` and `act` as for the mask. */
    method Sigaction(sig: int, oldOk: bool, act: Option<Option<Action>>) returns (r: Answer)
      requires Valid()
      modifies this`s
      ensures Valid()
      ensures r.BadArgument? <==> !ValidSignal(sig) || Unblockable(sig)
      ensures !r.Success? ==> s == old(s)
      ensures r.Success? ==> s.blocked == old(s).blocked && s.pending == old(s).pending[sig := false]
      ensures r.Success? ==> forall i :: 0 <= i < NSIG && i != sig ==> s.actions[i] == old(s).actions[i]
      ensures r.Success? && act.Some? ==> act.value.Some? && var a := s.actions[sig];
        && a.(mask := act.value.value.mask) == act.value.value && !a.mask[SIGKILL] && !a.mask[SIGSTOP]
        && forall i :: 0 <= i < NSIG && !Unblockable(i) ==> a.mask[i] == act.value.value.mask[i]
    {
      if !ValidSignal(sig) || Unblockable(sig) {
        return BadArgument;
      }
      if !oldOk || act == Some(None) {
        return BadAddress;
      }
      if act.Some? {
        var a := act.value.value;
        s := s.(actions := s.actions[sig := a.(mask := a.mask[SIGKILL := false][SIGSTOP := false])]);
      }
      s := s.(pending := s.pending[sig := false]);
      return Success;
    }

    /** kill_deliver, to itself or to another: a process that kills itself is gone at once. */
    method Kill(sig: int, self: bool)
      requires Valid() && ValidSignal(sig)
      modifies this`s, this`stopped, this`continued, this`exitSig, this`exited
      ensures Valid() && s == old(s).(pending := old(s).pending[sig := true])
      ensures Unblockable(sig) ==> Deliverable(s, sig)
      ensures exited <==> old(exited) || (sig == SIGKILL && self)
      ensures DefaultAction(sig) == Stop ==> stopped && !continued && exitSig == sig
      ensures DefaultAction(sig) == Continue ==>
        !stopped && exitSig == 0 && (continued <==> old(continued) || old(stopped))
      ensures DefaultAction(sig) !in {Stop, Continue} ==> stopped == old(stopped) && continued == old(continued)
      ensures DefaultAction(sig) !in {Stop, Continue} ==> exitSig == if sig == SIGKILL then SIGKILL else old(exitSig)
    {
      s := s.(pending := s.pending[sig := true]);
      if sig in {19, 20, 21, 22} {
        stopped, continued, exitSig := true, false, sig;
      } else if sig == 18 {
        continued, stopped, exitSig := continued || stopped, false, 0;
      }
      if sig == SIGKILL {
        exitSig := SIGKILL;
        if self {
          exited := true;
        }
      }
    }
  }

  /** SIGKILL waits while a handler runs: sent to a process in its handler for SIGUSR1, it is not delivered. */
  method KillHeldBack() returns (p: Process, sig: Option<int>)
    ensures fresh(p) && p.Valid() && p.s.inSignal && Deliverable(p.s, SIGKILL)
    ensures sig.None? && !p.exited
  {
    p := new Process;
    p.s, p.regs, p.exited := TwoHandlers(), AtStack(0x8000), false;
    EnteredOk(p.s, p.regs, SIGUSR1);
    p.s := Entered(p.s, p.regs, SIGUSR1);
    p.Kill(SIGKILL, false);
    sig := p.CheckPending(seq(ARGS, _ => 0), true, true);
  }

  lemma {:induction false} HandlerEntered()
    ensures var s0, r0 := TwoHandlers(), AtStack(0x8000);
      var s1, r1 := Entered(s0, r0, SIGUSR1), EnteredRegs(s0, r0, SIGUSR1);
      && Ok(s0) && !s0.blocked[SIGUSR1] && s0.actions[SIGUSR1].handler !in {DFL, IGN}
      && s1.(syscallRestartable := false) == s1 && !s1.blocked[SIGSEGV] && s1.actions[SIGSEGV].handler !in {DFL, IGN}
      && s1.sigframeAddr == FrameAddr(s0, r0, SIGUSR1) == 0x7F80 && r1.rsp == 0x7FF8
      && |s1.actions| == NSIG && s1.actions[SIGSEGV].restorer != 0 && !s1.actions[SIGSEGV].flags.onStack
  {
  }

  lemma {:induction false} HandlerResumed(s1: Signals, r1: Regs)
    requires |s1.actions| == NSIG && !s1.syscallRestartable && r1.rsp == 0x7FF8
    requires s1.actions[SIGSEGV].restorer != 0 && !s1.actions[SIGSEGV].flags.onStack
    ensures var s2, r2 := Entered(s1, r1, SIGSEGV), EnteredRegs(s1, r1, SIGSEGV);
      var f := FrameFor(s1, r1, SIGSEGV);
      && s2.sigframeAddr != 0 && Returned(s2, f).sigframeAddr == 0
      && ReturnedRegs(r2, f).rsp == r1.rsp && ReturnedRegs(r2, f).rip == r1.rip
  {
    hide HandlerMask, SavedMask, RestoredMask, FlagsFrom;
  }

  /**
   A fault inside the handler of SIGUSR1, both with restorers, run through: the inner return brings the
   outer handler back, and the outer return, after `ret`, looks for its frame of 0x7F80 at 0x8000.
   */
  method NestedFault() returns (p: Process, first: Delivery, second: Delivery, back: bool)
    ensures fresh(p) && first.Caught? && second.Caught? && back
    ensures p.regs.rip == EnteredRegs(TwoHandlers(), AtStack(0x8000), SIGUSR1).rip && p.regs.rsp == 0x8000
    ensures FrameAddr(TwoHandlers(), AtStack(0x8000), SIGUSR1) == 0x7F80 && FrameToReturn(p.s, p.regs) == 0x8000
  {
    hide Entered, EnteredRegs, FrameFor, Returned, ReturnedRegs, FrameIn, FrameAddr, TwoHandlers, AtStack;
    hide WrittenBelow, WordLies;
    HandlerEntered();
    p := new Process;
    p.s, p.regs := TwoHandlers(), AtStack(0x8000);
    var junk := seq(ARGS, _ => 0);
    first := p.Deliver(SIGUSR1, junk, true, true);
    ghost var s1, r1 := p.s, p.regs;
    second := p.FaultSignal(junk, true, true);
    HandlerResumed(s1, r1);
    back := p.Sigreturn();
    p.regs := p.regs.(rsp := p.regs.rsp + 8);
  }

  /** SIGUSR1 is blocked and sigsuspend lets it in: it ends the sleep and is still not delivered. */
  method SuspendMisses() returns (p: Process, slept: bool, sig: Option<int>)
    ensures fresh(p) && p.Valid() && slept && sig.None? && p.s.pending[SIGUSR1]
  {
    p := new Process;
    var none: Mask := seq(NSIG, _ => false);
    var usr1: Mask := none[SIGUSR1 := true];
    p.s, p.regs := TwoHandlers().(blocked := usr1), AtStack(0x8000);
    slept, sig := p.SuspendAndReturn(none, usr1, seq(ARGS, _ => 0), true, true);
  }

  lemma {:induction false} DeliverableIff(s: Signals)
    requires Ok(s)
    ensures forall k {:trigger Deliverable(s, k)} {:trigger s.pending[k]} ::
      ValidSignal(k) ==> (Deliverable(s, k) <==> s.pending[k] && !s.blocked[k])
  {
  }

  function Either(a: Mask, b: Mask): Mask {
    seq(NSIG, i requires 0 <= i < NSIG => a[i] || b[i])
  }

  /** Both copies of a delivery succeed; without a restorer there is one. */
  predicate Copied(s: Signals, sig: int, frameOk: bool, restorerOk: bool)
    requires |s.actions| == NSIG && ValidSignal(sig)
  {
    frameOk && (s.actions[sig].restorer == 0 || restorerOk)
  }

  function ArgsOf(r: Regs): seq<Word64> {
    [r.rdi, r.rsi, r.rdx, r.r10, r.r8, r.r9]
  }

  ghost predicate WordLies(mem: E.Memory, a: int, w: Word64) {
    Readable(mem, a, 8) && WordIn(mem, a) == w
  }

  /** Nothing but the places of the frame and of the restorer has been written. */
  ghost predicate WrittenBelow(mem: E.Memory, mem': E.Memory, s: Signals, r: Regs, sig: int)
    requires |s.actions| == NSIG && ValidSignal(sig)
  {
    var a, sp := FrameAddr(s, r, sig), EntryRsp(s, r, sig);
    forall x :: x in mem && !(a <= x < a + FRAME_SIZE) && !(s.actions[sig].restorer != 0 && sp <= x < sp + 8) ==>
      x in mem' && mem'[x] == mem[x]
  }

  lemma {:induction false} NothingWritten(mem: E.Memory, s: Signals, r: Regs, sig: int)
    requires |s.actions| == NSIG && ValidSignal(sig)
    ensures WrittenBelow(mem, mem, s, r, sig)
  {
  }

  /** A delivery leaves the stack that it interrupted alone. */
  lemma {:induction false} StackKept(mem: E.Memory, mem': E.Memory, s: Signals, r: Regs, sig: int, x: int)
    requires Ok(s) && ValidSignal(sig) && FRAME_SIZE + 8 <= StackTop(s, r, sig)
    requires WrittenBelow(mem, mem', s, r, sig) && x >= StackTop(s, r, sig) && x in mem
    ensures x in mem' && mem'[x] == mem[x]
  {
    hide StackTop, FrameAddr, EntryRsp;
    FrameBelow(s, r, sig);
  }

  /** The two copies of a delivery: the frame is there after the first and still after the second. */
  lemma {:induction false} CopiedOut(mem: E.Memory, s: Signals, r: Regs, sig: int, f: Frame, junk: seq<Word64>,
                                     restorer: Word64)
    requires Ok(s) && ValidSignal(sig) && Proper(f) && |junk| == ARGS && restorer == s.actions[sig].restorer
    ensures var a, sp := FrameAddr(s, r, sig), EntryRsp(s, r, sig);
      var one := Written(mem, a, Flat(FrameWords(f, junk)));
      var two := Written(one, sp, E.Encode(restorer, 8));
      && FrameLies(one, a, f) && WrittenBelow(mem, one, s, r, sig)
      && (restorer != 0 ==> FrameLies(two, a, f) && WordLies(two, sp, restorer) && WrittenBelow(mem, two, s, r, sig))
  {
    hide FrameWords, FrameIn, WordIn, StackTop;
    var a, sp := FrameAddr(s, r, sig), EntryRsp(s, r, sig);
    var b := Flat(FrameWords(f, junk));
    var one := Written(mem, a, b);
    WrittenAt(mem, a, b);
    FrameRoundTrip(one, a, f, junk);
    if restorer != 0 {
      var two := Written(one, sp, E.Encode(restorer, 8));
      WrittenAt(one, sp, E.Encode(restorer, 8));
      WordDecoded(two, sp, restorer);
      WrittenKeeps(one, a, b, sp, E.Encode(restorer, 8));
      FrameRoundTrip(two, a, f, junk);
    }
  }

  datatype Answer = Success | BadAddress | BadArgument

  ghost predicate Deliverable(s: Signals, sig: int) {
    0 <= sig < NSIG && s.pending[sig] && (!s.blocked[sig] || Unblockable(sig))
  }

  /** The bits of a handler's mask. */
  function Mix(saved: Mask, more: Mask, self: Option<int>): Mask {
    seq(NSIG, i requires 0 <= i < NSIG => !Unblockable(i) && (saved[i] || more[i] || self == Some(i)))
  }
}
