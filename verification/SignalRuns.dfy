/**
 Whole runs of the signal emulation: arrivals, mask changes, guest code, deliveries and
 sigreturns in any order (src/emu.cpp, src/guest_context.cpp). A list of live frames, which the
 emulator itself does not keep, says what each sigreturn has to give back.
 */
module SignalRuns {
  import opened Words
  import opened Segments
  import opened Sigsets
  import opened GuestContexts
  import opened Signals

  /** A delivery that has not returned: the interrupted registers and mask. */
  datatype Frame = Frame(regs: Regs, mask: Sigset)
  {
    /** Offset of the saved mask word; the saved words end 128 bytes below the interrupted stack pointer. */
    function Low(): int { (regs[ESP] as int) - REDLINE - 64 }

    predicate Live(segs: SegTable, mem: seq<byte>)
      requires Backed(segs, mem)
    {
      Low() >= 0 && WordsAt(segs, mem, regs[SS], Low(), FrameWords(mask, regs))
    }
  }

  datatype Sys = Sys(segs: SegTable, bits: Bitness, emu: EmuState, frames: seq<Frame>)
  {
    function Regs(): Regs { emu.m.regs }

    function Top(): Frame
      requires frames != []
    {
      frames[|frames| - 1]
    }
  }

  datatype Event =
    | Arrive(sig: Signo)
    | SetMask(change: Sigset, bits: Sigset)
    | GuestRuns
    | TailStep(env: Env)
    | ReturnStep(env: Env)

  /** While frames are live the guest's stack pointer stays at or below the newest one. */
  predicate Disciplined(frames: seq<Frame>, r: Regs) {
    frames != [] ==>
      var top := frames[|frames| - 1];
      r[SS] == top.regs[SS] && r[ESP] <= top.Low()
  }

  /** Guest code may do anything to registers and memory, but leaves the live frames in place. */
  predicate FramesUntouched(frames: seq<Frame>, segs: SegTable, mem: seq<byte>, segs': SegTable, mem': seq<byte>)
    requires Backed(segs, mem) && Backed(segs', mem')
  {
    forall f :: f in frames && f.Live(segs, mem) ==> f.Live(segs', mem')
  }

  /** What the guest owes a sigreturn: the stack pointer at the saved mask word, or at the 16-bit syscall number just below it. */
  predicate ReturnReady(s: Sys) {
    && s.frames != []
    && s.Regs()[SS] == s.Top().regs[SS]
    && s.Regs()[ESP] == s.Top().Low() - (if s.bits == B16 then 2 else 0)
    && (s.bits == B16 ==> Translate(s.segs, s.Regs()[SS], s.Regs()[ESP], 2).Some?)
  }

  predicate Next(s: Sys, e: Event, t: Sys) {
    && MachineOk(s.segs, s.emu.m) && MachineOk(t.segs, t.emu.m) && t.bits == s.bits
    && match e
       case Arrive(sig) => t == s.(emu := s.emu.(pend := SetSig(s.emu.pend, sig)))
       case SetMask(change, bits) => t == s.(emu := s.emu.(mask := Modify(s.emu.mask, change, bits)))
       case GuestRuns =>
         && t.emu.pend == s.emu.pend && t.emu.mask == s.emu.mask && t.frames == s.frames
         && Disciplined(t.frames, t.Regs())
         && FramesUntouched(s.frames, s.segs, s.emu.m.mem, t.segs, t.emu.m.mem)
       case TailStep(env) =>
         && env.Valid() && env.segs == s.segs && env.bits == s.bits
         && !TailKindOf(env, s.emu).Crashed?
         && t == s.(emu := Tail(env, s.emu),
                    frames := if TailKindOf(env, s.emu).Delivered? then s.frames + [Frame(s.Regs(), s.emu.mask)] else s.frames)
       case ReturnStep(env) =>
         && env.segs == s.segs && env.bits == s.bits && ReturnReady(s)
         && t == s.(emu := Sigreturn(env, s.emu).s, frames := s.frames[..|s.frames| - 1])
  }

  predicate Inv(s: Sys) {
    && MachineOk(s.segs, s.emu.m)
    && (forall f :: f in s.frames ==> f.Live(s.segs, s.emu.m.mem))
    && Chain(s.frames)
    && Disciplined(s.frames, s.Regs())
  }

  // ----- layout of the live frames

  /**
   Live frames lie strictly below one another on one stack segment, each ends 128 bytes below the
   stack pointer it interrupted, and so no frame reaches into the red zone of another.
   */
  lemma {:induction false} FramesDescend(s: Sys, i: nat, j: nat)
    requires Inv(s) && i < j < |s.frames|
    ensures s.frames[j].regs[SS] == s.frames[i].regs[SS]
    ensures s.frames[j].Low() + 64 + REDLINE == s.frames[j].regs[ESP] <= s.frames[i].Low()
    decreases j - i
  {
    var below := s.frames[..j];
    assert Disciplined(below, s.frames[j].regs);
    assert below[|below| - 1] == s.frames[j - 1];
    if i < j - 1 {
      FramesDescend(s, i, j - 1);
    }
  }

  lemma BelowAllFrames(s: Sys, i: nat)
    requires Inv(s) && i < |s.frames|
    ensures s.Regs()[SS] == s.frames[i].regs[SS] && s.Regs()[ESP] <= s.frames[i].Low()
  {
    if i < |s.frames| - 1 {
      FramesDescend(s, i, |s.frames| - 1);
    }
  }

  // ----- one delivery

  /** Only stack offsets from lo up to hi of the segment ss may differ between the two memories. */
  predicate OnlyStackChanged(segs: SegTable, ss: u16, mem: seq<byte>, mem': seq<byte>, lo: int, hi: int) {
    && SelectorId(ss) in segs && |mem'| == |mem|
    && var base := segs[SelectorId(ss)].location;
       forall i :: 0 <= i < |mem| && !(base + lo <= i < base + hi) ==> mem'[i] == mem[i]
  }

  /** Bytes of arguments for the stub, below the saved mask. */
  function ArgumentBytes(bits: Bitness): nat { if bits == B32 then 12 else 2 }

  /** One block pushed below the stack pointer. */
  lemma BlockIsOneChange(segs: SegTable, m: Machine, data: seq<byte>, o: Outcome)
    requires MachineOk(segs, m) && BlockPushed(segs, m, data, o) && o.ok && |data| > 0
    ensures m.regs[ESP] >= |data|
    ensures o.m.regs == m.regs[ESP := (m.regs[ESP] as int) - |data|]
    ensures MachineOk(segs, o.m)
    ensures OnlyStackChanged(segs, m.regs[SS], m.mem, o.m.mem, (m.regs[ESP] as int) - |data|, m.regs[ESP])
    ensures Translate(segs, m.regs[SS], (m.regs[ESP] as int) - |data|, |data|).Some?
    ensures var a := Translate(segs, m.regs[SS], (m.regs[ESP] as int) - |data|, |data|).value;
      o.m.mem[a..a + |data|] == data
  {
  }

  /** Words below the changed range, or above it, are still there. */
  lemma WordsAtAside(segs: SegTable, ss: u16, mem: seq<byte>, mem': seq<byte>, lo: int, hi: int, offset: nat, ws: seq<u32>)
    requires Backed(segs, mem) && Backed(segs, mem') && OnlyStackChanged(segs, ss, mem, mem', lo, hi)
    requires WordsAt(segs, mem, ss, offset, ws) && hi <= offset
    ensures WordsAt(segs, mem', ss, offset, ws)
  {
  }

  function ArgumentData(bits: Bitness, sig: Signo, handler: u32): (data: seq<byte>)
    ensures |data| == ArgumentBytes(bits)
  {
    if bits == B32 then EncodeAll([handler, sig, 0]) else Encode16(sig)
  }

  lemma ArgumentsPushed(env: Env, m: Machine, sig: Signo, handler: u32)
    requires MachineOk(env.segs, m)
    ensures BlockPushed(env.segs, m, ArgumentData(env.bits, sig, handler),
      if env.bits == B32 then PushAll(env.segs, Outcome(m, true), [handler, sig, 0]) else Push16(env.segs, Outcome(m, true), sig))
  {
    hide Translate, Backed, BlockPushed, WriteStack;
    if env.bits == B32 {
      PushAllEffect(env.segs, m, [handler, sig, 0]);
    } else {
      PushIsBlock(env.segs, m, Encode16(sig));
    }
  }

  /** Nothing fits below a stack pointer that wrapped around. */
  lemma MovedBelow(segs: SegTable, mem: seq<byte>, r: Regs, n: int)
    requires Backed(segs, mem) && 0 <= n <= 0x1000
    requires Moved(r, -n)[ESP] >= 64 && Translate(segs, r[SS], (Moved(r, -n)[ESP] as int) - 64, 64).Some?
    ensures Moved(r, -n)[ESP] as int == (r[ESP] as int) - n
  {
  }

  lemma ContextPushed(segs: SegTable, m: Machine, mask: Sigset)
    requires MachineOk(segs, m)
    ensures var o := PushAll(segs, Outcome(m.(regs := Moved(m.regs, -REDLINE)), true), FrameWords(mask, m.regs));
      var f := Frame(m.regs, mask);
      o.ok ==>
        && f.Live(segs, o.m.mem)
        && o.m.regs == m.regs[ESP := f.Low()]
        && OnlyStackChanged(segs, m.regs[SS], m.mem, o.m.mem, f.Low(), (m.regs[ESP] as int) - REDLINE)
  {
    hide PushAll, EncodeAll, FrameWords, Translate, Backed, BlockPushed, OnlyStackChanged;
    var m1 := m.(regs := Moved(m.regs, -REDLINE));
    var ws := FrameWords(mask, m.regs);
    var o := PushAll(segs, Outcome(m1, true), ws);
    PushAllEffect(segs, m1, ws);
    if o.ok {
      BlockIsOneChange(segs, m1, EncodeAll(ws), o);
      MovedBelow(segs, m.mem, m.regs, REDLINE);
    }
  }

  /** The bytes lie at the stack pointer. */
  predicate StackHolds(segs: SegTable, m: Machine, data: seq<byte>)
    requires MachineOk(segs, m)
  {
    var a := Translate(segs, m.regs[SS], m.regs[ESP], |data|);
    a.Some? && m.mem[a.value..a.value + |data|] == data
  }

  /** A delivery saves the context in one block and touches nothing at or above 128 bytes below the stack pointer. */
  lemma DeliveryEffect(env: Env, m: Machine, mask: Sigset, sig: Signo, handler: u32)
    requires MachineOk(env.segs, m) && BuildFrame(env, m, mask, sig, handler).ok
    ensures var o := BuildFrame(env, m, mask, sig, handler);
      var f := Frame(m.regs, mask);
      && f.Live(env.segs, o.m.mem)
      && f.Low() >= ArgumentBytes(env.bits)
      && o.m.regs == m.regs[ESP := f.Low() - ArgumentBytes(env.bits)]
      && StackHolds(env.segs, o.m, ArgumentData(env.bits, sig, handler))
      && OnlyStackChanged(env.segs, m.regs[SS], m.mem, o.m.mem, f.Low() - ArgumentBytes(env.bits), (m.regs[ESP] as int) - REDLINE)
  {
    hide PushAll, WordsAt, FrameWords, Backed, Translate, BlockPushed, ArgumentData;
    var segs, f := env.segs, Frame(m.regs, mask);
    var o1 := PushAll(segs, Outcome(m.(regs := Moved(m.regs, -REDLINE)), true), FrameWords(mask, m.regs));
    var o := BuildFrame(env, m, mask, sig, handler);
    if !o1.ok {
      PushAllKeepsFailure(segs, o1, [handler, sig, 0]);
    }
    ContextPushed(segs, m, mask);
    assert o1 == Outcome(o1.m, true);
    ArgumentsPushed(env, o1.m, sig, handler);
    var data := ArgumentData(env.bits, sig, handler);
    BlockIsOneChange(segs, o1.m, data, o);
    WordsAtAside(segs, m.regs[SS], o1.m.mem, o.m.mem, f.Low() - |data|, f.Low(), f.Low(), FrameWords(mask, m.regs));
  }

  /** There are n accessible bytes below the red zone. */
  predicate HasRoom(segs: SegTable, r: Regs, n: nat) {
    r[ESP] >= REDLINE + n && Translate(segs, r[SS], (r[ESP] as int) - REDLINE - n, n).Some?
  }

  lemma ContextOkIff(segs: SegTable, m: Machine, mask: Sigset)
    requires MachineOk(segs, m)
    ensures PushAll(segs, Outcome(m.(regs := Moved(m.regs, -REDLINE)), true), FrameWords(mask, m.regs)).ok
       <==> HasRoom(segs, m.regs, 64)
  {
    hide PushAll, EncodeAll, FrameWords, Translate, Backed;
    var m1 := m.(regs := Moved(m.regs, -REDLINE));
    PushAllEffect(segs, m1, FrameWords(mask, m.regs));
    if PushAll(segs, Outcome(m1, true), FrameWords(mask, m.regs)).ok {
      MovedBelow(segs, m.mem, m.regs, REDLINE);
    }
  }

  lemma RoomSplits(segs: SegTable, r: Regs, n: nat)
    requires ValidTable(segs) && n > 0
    ensures HasRoom(segs, r, 64 + n) <==>
      && HasRoom(segs, r, 64) && r[ESP] >= REDLINE + 64 + n
      && Translate(segs, r[SS], (r[ESP] as int) - REDLINE - 64 - n, n).Some?
  {
  }

  /** A frame can be built exactly when the stack has room for all of it below the red zone. */
  lemma FrameFitsIff(env: Env, m: Machine, mask: Sigset, sig: Signo, handler: u32)
    requires MachineOk(env.segs, m)
    ensures BuildFrame(env, m, mask, sig, handler).ok <==> HasRoom(env.segs, m.regs, 64 + ArgumentBytes(env.bits))
  {
    hide PushAll, FrameWords, Backed, Translate, OnlyStackChanged, Frame.Live;
    var o1 := PushAll(env.segs, Outcome(m.(regs := Moved(m.regs, -REDLINE)), true), FrameWords(mask, m.regs));
    BackedIsValid(env.segs, m.mem);
    RoomSplits(env.segs, m.regs, ArgumentBytes(env.bits));
    ContextOkIff(env.segs, m, mask);
    if o1.ok {
      ContextPushed(env.segs, m, mask);
      assert o1 == Outcome(o1.m, true);
      ArgumentsPushed(env, o1.m, sig, handler);
    } else {
      PushAllKeepsFailure(env.segs, o1, [handler, sig, 0]);
    }
  }

  /**
   When a signal is delivered, exactly: guest code was interrupted, some pending signal is not
   masked, the least of them has a registered handler, and its frame fits on the stack.
   */
  lemma DeliveredIff(env: Env, s: EmuState)
    requires env.Valid() && MachineOk(env.segs, s.m)
    ensures TailKindOf(env, s).Delivered? <==>
      && InGuest(s.m.regs) && !(Members(s.pend) <= Members(s.mask)) && env.sigtab.Some?
      && HasRoom(env.segs, s.m.regs, 64 + ArgumentBytes(env.bits))
      && exists sig: Signo :: IsLeast(sig, Members(s.pend) - Members(s.mask)) && !IsSpecialHandler(env.sigtab.value.actions[sig - 1].handler)
  {
    hide TailKindOf, BuildFrame, Backed, Active, Members, IsSpecialHandler, HasRoom, FirstFrom, IsLeast, InGuest, Env.Valid;
    EnvActions(env);
    TailKindParts(env, s);
    var active := Active(s.pend, s.mask);
    ActiveEmptyIff(s.pend, s.mask);
    MembersOfOperations(s.pend, EMPTY, s.mask, 1);
    FirstFromLeast(active, 1);
    if active != EMPTY && env.sigtab.Some? {
      var sig := FirstFrom(active, 1);
      FrameFitsIff(env, s.m, s.mask, sig, env.sigtab.value.actions[sig - 1].handler);
      LeastUnique(sig, Members(active));
      assert IsLeast(sig, Members(s.pend) - Members(s.mask));
    }
  }

  lemma EnvActions(env: Env)
    requires env.Valid()
    ensures env.sigtab.Some? ==> |env.sigtab.value.actions| == 32
  {
  }

  lemma TailKindParts(env: Env, s: EmuState)
    requires env.Valid() && MachineOk(env.segs, s.m)
    ensures var (active, sig) := (Active(s.pend, s.mask), FirstFrom(Active(s.pend, s.mask), 1));
      && (active != EMPTY ==> 1 <= sig <= 32)
      && (TailKindOf(env, s).Delivered? <==>
            && InGuest(s.m.regs) && active != EMPTY && env.sigtab.Some?
            && var act := env.sigtab.value.actions[sig - 1];
               !IsSpecialHandler(act.handler) && BuildFrame(env, s.m, s.mask, sig, act.handler).ok)
  {
    hide BuildFrame, Backed, Active, Members, IsSpecialHandler, FirstFrom, IsLeast, InGuest;
    FirstFromLeast(Active(s.pend, s.mask), 1);
  }

  lemma LeastUnique(sig: Signo, members: set<Signo>)
    requires IsLeast(sig, members)
    ensures forall x: Signo :: IsLeast(x, members) ==> x == sig
  {
  }

  lemma PushAllKeepsFailure(segs: SegTable, o: Outcome, ws: seq<u32>)
    requires MachineOk(segs, o.m) && !o.ok
    ensures PushAll(segs, o, ws) == o
  {
  }

  // ----- every step keeps the invariant

  lemma FramesSurvive(s: Sys, mem': seq<byte>, lo: int)
    requires Inv(s) && Backed(s.segs, mem')
    requires OnlyStackChanged(s.segs, s.Regs()[SS], s.emu.m.mem, mem', lo, (s.Regs()[ESP] as int) - REDLINE)
    ensures forall f :: f in s.frames ==> f.Live(s.segs, mem')
  {
    hide Inv, OnlyStackChanged, FrameWords;
    forall f | f in s.frames ensures f.Live(s.segs, mem') {
      var i :| 0 <= i < |s.frames| && s.frames[i] == f;
      BelowAllFrames(s, i);
      LiveInInv(s, f);
      WordsAtAside(s.segs, f.regs[SS], s.emu.m.mem, mem', lo, (s.Regs()[ESP] as int) - REDLINE, f.Low(), FrameWords(f.mask, f.regs));
    }
  }

  lemma LiveInInv(s: Sys, f: Frame)
    requires Inv(s) && f in s.frames
    ensures MachineOk(s.segs, s.emu.m) && f.Low() >= 0 && f.Live(s.segs, s.emu.m.mem)
  {
  }

  /** What a tail that delivers does to the machine. */
  lemma TailDelivers(env: Env, s: EmuState)
    requires env.Valid() && MachineOk(env.segs, s.m) && TailKindOf(env, s).Delivered?
    ensures var f, t := Frame(s.m.regs, s.mask), Tail(env, s);
      && f.Live(env.segs, t.m.mem)
      && f.Low() - ArgumentBytes(env.bits) >= 0
      && t.m.regs[SS] == s.m.regs[SS] && t.m.regs[ESP] == f.Low() - ArgumentBytes(env.bits)
      && OnlyStackChanged(env.segs, s.m.regs[SS], s.m.mem, t.m.mem, f.Low() - ArgumentBytes(env.bits), (s.m.regs[ESP] as int) - REDLINE)
  {
    hide BuildFrame, FirstFrom, Backed, Frame.Live, OnlyStackChanged, Or, Active, SetSig, ClearSig, IsSpecialHandler, InGuest;
    var sig := TailKindOf(env, s).sig;
    DeliveryEffect(env, s.m, s.mask, sig, env.sigtab.value.actions[sig - 1].handler);
  }

  /**
   A delivery calls the registered handler: control is at the stub, the stub finds signal and
   handler at the stack pointer, no register changed but ESP, CS and EIP; the signal is no longer
   pending, and it and its action's mask are blocked.
   */
  lemma DeliveryCallsHandler(env: Env, s: EmuState)
    requires env.Valid() && MachineOk(env.segs, s.m) && TailKindOf(env, s).Delivered?
    ensures env.sigtab.Some?
    ensures var (t, sig, tab) := (Tail(env, s), TailKindOf(env, s).sig, env.sigtab.value);
      && !IsSpecialHandler(tab.actions[sig - 1].handler)
      && StackHolds(env.segs, t.m, ArgumentData(env.bits, sig, tab.actions[sig - 1].handler))
      && (env.bits == B32 ==> t.m.regs[CS] == env.loadCs && t.m.regs[EIP] == tab.sigstub)
      && (env.bits == B16 ==> (t.m.regs[CS] as int) * 0x1_0000 + t.m.regs[EIP] == tab.sigstub)
      && (forall k :: 0 <= k < 16 && k != ESP && k != CS && k != EIP ==> t.m.regs[k] == s.m.regs[k])
      && Members(t.pend) == Members(s.pend) - {sig}
      && Members(t.mask) == Members(s.mask) + Members(tab.actions[sig - 1].mask) + {sig}
  {
    hide BuildFrame, FirstFrom, Backed, Frame.Live, OnlyStackChanged, Or, SetSig, ClearSig, Active, Members, InGuest, StackHolds, ArgumentData;
    var sig := TailKindOf(env, s).sig;
    var act := env.sigtab.value.actions[sig - 1];
    DeliveryEffect(env, s.m, s.mask, sig, act.handler);
    DeliverySets(s.pend, s.mask, act.mask, sig);
    StackHoldsBelow(env, BuildFrame(env, s.m, s.mask, sig, act.handler).m, ArgumentData(env.bits, sig, act.handler));
  }

  lemma DeliverySets(pend: Sigset, mask: Sigset, more: Sigset, sig: Signo)
    ensures Members(ClearSig(pend, sig)) == Members(pend) - {sig}
    ensures Members(SetSig(Or(mask, more), sig)) == Members(mask) + Members(more) + {sig}
  {
    hide Or, SetSig, ClearSig, Members;
    MembersOfOperations(mask, more, EMPTY, sig);
    MembersOfOperations(Or(mask, more), EMPTY, EMPTY, sig);
    MembersOfOperations(pend, EMPTY, EMPTY, sig);
  }

  /**
   What the stub finds on its stack: for a 32-bit guest the handler, the number of the signal and
   a zero, and above them the interrupted mask; for a 16-bit guest the number and then the mask.
   */
  lemma StubSees(env: Env, s: EmuState)
    requires env.Valid() && MachineOk(env.segs, s.m) && TailKindOf(env, s).Delivered? && env.sigtab.Some?
    ensures var (m, sig) := (Tail(env, s).m, TailKindOf(env, s).sig);
      var esp := m.regs[ESP] as int;
      && esp + ArgumentBytes(env.bits) < 0x1_0000_0000
      && PeekStack(env.segs, m, esp + ArgumentBytes(env.bits)) == Some(ToWord(s.mask))
      && (env.bits == B32 ==>
            && PeekStack(env.segs, m, esp) == Some(env.sigtab.value.actions[sig - 1].handler)
            && PeekStack(env.segs, m, esp + 4) == Some(sig) && PeekStack(env.segs, m, esp + 8) == Some(0))
      && (env.bits == B16 ==> PeekStack16(env.segs, m, esp) == Some(sig))
  {
    hide Tail, TailKindOf, Backed, Translate, StackHolds, Frame.Live, OnlyStackChanged, IsSpecialHandler, Members, PeekStack, PeekStack16;
    var (m, sig) := (Tail(env, s).m, TailKindOf(env, s).sig);
    var f := Frame(s.m.regs, s.mask);
    TailDelivers(env, s);
    DeliveryCallsHandler(env, s);
    SavedParts(env.segs, m, f);
    if env.bits == B32 {
      var ws: seq<u32> := [env.sigtab.value.actions[sig - 1].handler, sig, 0];
      HeldWords(env.segs, m, ws);
      PeekWordsAt(env.segs, m, m.regs[ESP], ws, 0);
      PeekWordsAt(env.segs, m, m.regs[ESP], ws, 1);
      PeekWordsAt(env.segs, m, m.regs[ESP], ws, 2);
    } else {
      HeldHalf(env.segs, m, sig);
    }
  }

  lemma HeldWords(segs: SegTable, m: Machine, ws: seq<u32>)
    requires MachineOk(segs, m) && StackHolds(segs, m, EncodeAll(ws))
    ensures WordsAt(segs, m.mem, m.regs[SS], m.regs[ESP], ws)
  {
    hide Translate;
    TranslateBacked(segs, m.mem, m.regs[SS], m.regs[ESP], 4 * |ws|);
  }

  lemma HeldHalf(segs: SegTable, m: Machine, v: u16)
    requires MachineOk(segs, m) && StackHolds(segs, m, Encode16(v))
    ensures PeekStack16(segs, m, m.regs[ESP]) == Some(v)
  {
    hide Translate, Encode16, Decode16;
    LittleEndian(0, v);
  }

  /** Entering the stub does not move the stack. */
  lemma StackHoldsBelow(env: Env, m: Machine, data: seq<byte>)
    requires MachineOk(env.segs, m) && env.sigtab.Some? && StackHolds(env.segs, m, data)
    ensures StackHolds(env.segs, m.(regs := EnterStub(env, m.regs)), data)
  {
  }

  predicate Chain(frames: seq<Frame>) {
    forall i :: 0 < i < |frames| ==> Disciplined(frames[..i], frames[i].regs)
  }

  lemma ChainGrows(frames: seq<Frame>, f: Frame)
    requires Chain(frames) && Disciplined(frames, f.regs)
    ensures Chain(frames + [f])
  {
  }

  lemma TailKeepsInv(s: Sys, env: Env, t: Sys)
    requires Inv(s) && Next(s, TailStep(env), t)
    ensures Inv(t)
  {
    hide Tail, TailKindOf, Backed, Frame.Live, OnlyStackChanged, Disciplined, Chain;
    if TailKindOf(env, s.emu).Delivered? {
      var f := Frame(s.Regs(), s.emu.mask);
      assert t == s.(emu := Tail(env, s.emu), frames := s.frames + [f]);
      assert env.segs == s.segs && env.Valid();
      TailDelivers(env, s.emu);
      FramesSurvive(s, t.emu.m.mem, f.Low() - ArgumentBytes(env.bits));
      ChainGrows(s.frames, f);
      NewTop(s.frames, f, t.Regs());
    } else {
      TailIdles(env, s.emu);
    }
  }

  lemma TailIdles(env: Env, s: EmuState)
    requires env.Valid() && MachineOk(env.segs, s.m) && !TailKindOf(env, s).Delivered? && !TailKindOf(env, s).Crashed?
    ensures Tail(env, s) == s
  {
  }

  lemma NewTop(frames: seq<Frame>, f: Frame, r: Regs)
    requires r[SS] == f.regs[SS] && r[ESP] <= f.Low()
    ensures Disciplined(frames + [f], r)
  {
  }

  /** The saved mask and, above it, the saved context. */
  lemma SavedParts(segs: SegTable, m: Machine, f: Frame)
    requires MachineOk(segs, m) && f.Live(segs, m.mem) && m.regs[SS] == f.regs[SS]
    ensures PeekStack(segs, m, f.Low()) == Some(ToWord(f.mask))
    ensures WordsAt(segs, m.mem, f.regs[SS], f.Low() + 4, ContextWords(Moved(f.regs, -REDLINE)))
  {
    hide Translate, Backed, PeekStack, WordsAt;
    var ws := FrameWords(f.mask, f.regs);
    assert ws[0] == ToWord(f.mask) && ws[1..] == ContextWords(Moved(f.regs, -REDLINE));
    PeekWordsAt(segs, m, f.Low(), ws, 0);
    WordsAtTail(segs, m.mem, f.regs[SS], f.Low(), ws);
  }

  lemma RestoredFrame(segs: SegTable, m: Machine, f: Frame, now: Regs)
    requires MachineOk(segs, m) && f.Low() >= 0 && m.regs == now[ESP := f.Low() + 4] && now[SS] == f.regs[SS]
    requires WordsAt(segs, m.mem, f.regs[SS], f.Low() + 4, ContextWords(Moved(f.regs, -REDLINE)))
    ensures var o := RestoreFrom(segs, Outcome(m, true), 0);
      o.ok && o.m.mem == m.mem && Moved(o.m.regs, REDLINE) == Restored(f.regs, f.regs[ESP], now)
  {
    hide RestoreFrom, WordsAt, Backed, ContextWords;
    var saved := Moved(f.regs, -REDLINE);
    RestoreEffect(segs, m, saved);
    assert Moved(Restored(saved, f.Low() + 64, m.regs), REDLINE) == Restored(f.regs, f.regs[ESP], now);
  }

  lemma PopFrameEffect(segs: SegTable, s: EmuState, f: Frame, now: Regs)
    requires MachineOk(segs, s.m) && f.Low() >= 0 && f.Live(segs, s.m.mem)
    requires s.m.regs == now[ESP := f.Low()] && now[SS] == f.regs[SS]
    ensures PopFrame(segs, s) == SigreturnResult(EmuState(s.pend, f.mask, s.m.(regs := Restored(f.regs, f.regs[ESP], now))), true)
  {
    hide Backed, Frame.Live, WordsAt, PeekStack, FrameWords, ContextWords, RestoreFrom, ToWord, FromWord, Translate, Restored;
    SavedParts(segs, s.m, f);
    WordRoundTrip(f.mask);
    var m4 := s.m.(regs := Moved(s.m.regs, 4));
    RestoredFrame(segs, m4, f, now);
  }

  /** A sigreturn that the guest prepared gives back the mask and every pushed register of the newest frame. */
  lemma SigreturnEffect(s: Sys, env: Env)
    requires Inv(s) && ReturnReady(s) && env.segs == s.segs && env.bits == s.bits
    ensures Sigreturn(env, s.emu)
         == SigreturnResult(EmuState(s.emu.pend, s.Top().mask, s.emu.m.(regs := Restored(s.Top().regs, s.Top().regs[ESP], s.Regs()))), true)
  {
    hide Inv, Backed, Frame.Live, PopFrame, Translate;
    var f := s.Top();
    LiveInInv(s, f);
    var m := if s.bits == B16 then s.emu.m.(regs := Moved(s.emu.m.regs, 2)) else s.emu.m;
    assert m.regs == s.Regs()[ESP := f.Low()];
    PopFrameEffect(s.segs, s.emu.(m := m), f, s.Regs());
  }

  lemma ReturnKeepsInv(s: Sys, env: Env, t: Sys)
    requires Inv(s) && Next(s, ReturnStep(env), t)
    ensures Inv(t)
  {
    hide Sigreturn, Backed, Frame.Live;
    SigreturnEffect(s, env);
    var n := |s.frames|;
    assert forall i :: 0 < i < |t.frames| ==> t.frames[..i] == s.frames[..i];
    if n > 1 {
      assert Disciplined(s.frames[..n - 1], s.frames[n - 1].regs);
    }
  }

  /** Every step of every run keeps the frames live, descending and below each other's red zone. */
  lemma NextKeepsInv(s: Sys, e: Event, t: Sys)
    requires Inv(s) && Next(s, e, t)
    ensures Inv(t)
  {
    match e
    case TailStep(env) => TailKeepsInv(s, env, t);
    case ReturnStep(env) => ReturnKeepsInv(s, env, t);
    case _ =>
  }

  // ----- whole runs

  /** states[i] goes to states[i + 1] by events[i]. */
  predicate IsRun(states: seq<Sys>, events: seq<Event>) {
    && |states| == |events| + 1
    && Inv(states[0])
    && forall i :: 0 <= i < |events| ==> Next(states[i], events[i], states[i + 1])
  }

  lemma {:induction false} RunKeepsInv(states: seq<Sys>, events: seq<Event>, i: nat)
    requires IsRun(states, events) && i < |states|
    ensures Inv(states[i])
  {
    hide Inv, Next;
    if i > 0 {
      RunKeepsInv(states, events, i - 1);
      NextKeepsInv(states[i - 1], events[i - 1], states[i]);
    }
  }

  /** At every moment of every run, the newer of two live frames, with the red zone above it, lies below the older one. */
  lemma RunFramesDescend(states: seq<Sys>, events: seq<Event>, i: nat, older: nat, newer: nat)
    requires IsRun(states, events) && i < |states| && older < newer < |states[i].frames|
    ensures var (f, g) := (states[i].frames[older], states[i].frames[newer]);
      g.regs[SS] == f.regs[SS] && 0 <= g.Low() < g.Low() + 64 + 128 == g.regs[ESP] <= f.Low()
  {
    hide Inv, Next;
    RunKeepsInv(states, events, i);
    FramesDescend(states[i], older, newer);
    LiveInInv(states[i], states[i].frames[newer]);
  }

  /** A step that leaves n frames at least leaves the oldest n as they were. */
  lemma NextKeepsOldFrames(s: Sys, e: Event, t: Sys, n: nat)
    requires Next(s, e, t) && n <= |s.frames| && n <= |t.frames|
    ensures t.frames[..n] == s.frames[..n]
  {
    hide Tail, Sigreturn, Backed, FramesUntouched, Disciplined;
  }

  lemma {:induction false} RunKeepsOldFrames(states: seq<Sys>, events: seq<Event>, d: nat, k: nat, n: nat)
    requires IsRun(states, events) && d <= k < |states|
    requires forall j :: d <= j <= k ==> |states[j].frames| >= n
    ensures states[k].frames[..n] == states[d].frames[..n]
  {
    hide Inv, Next;
    if d < k {
      RunKeepsOldFrames(states, events, d, k - 1, n);
      NextKeepsOldFrames(states[k - 1], events[k - 1], states[k], n);
    }
  }

  /** The sigreturn at step k takes down the frame that the delivery at step d built. */
  predicate Matches(states: seq<Sys>, events: seq<Event>, d: nat, k: nat)
    requires IsRun(states, events)
  {
    && d < k < |events| && events[d].TailStep? && events[k].ReturnStep?
    && |states[d + 1].frames| == |states[d].frames| + 1
    && |states[k].frames| == |states[d + 1].frames|
    && forall j :: d < j <= k ==> |states[j].frames| >= |states[d + 1].frames|
  }

  lemma DeliveryPushesFrame(s: Sys, env: Env, t: Sys)
    requires Next(s, TailStep(env), t) && |t.frames| == |s.frames| + 1
    ensures t.frames == s.frames + [Frame(s.Regs(), s.emu.mask)]
  {
    hide Tail, TailKindOf, Backed;
  }

  lemma ReturnPopsFrame(s: Sys, env: Env, t: Sys)
    requires Inv(s) && Next(s, ReturnStep(env), t)
    ensures s.frames != [] && t.frames == s.frames[..|s.frames| - 1]
    ensures t.emu == EmuState(s.emu.pend, s.Top().mask, s.emu.m.(regs := Restored(s.Top().regs, s.Top().regs[ESP], s.Regs())))
  {
    hide Sigreturn, Backed, Inv;
    SigreturnEffect(s, env);
  }

  /**
   In every run, whatever happened in between (nested deliveries, mask changes, arrivals, guest
   code), a sigreturn restores the signal mask, the stack pointer and every other register but FS
   as they were when its own delivery interrupted the guest.
   */
  lemma SigreturnRestoresDelivery(states: seq<Sys>, events: seq<Event>, d: nat, k: nat)
    requires IsRun(states, events) && Matches(states, events, d, k)
    ensures states[k + 1].emu.mask == states[d].emu.mask
    ensures forall r :: 0 <= r < 16 && r != FS ==> states[k + 1].Regs()[r] == states[d].Regs()[r]
    ensures states[k + 1].frames == states[d].frames
    ensures states[k + 1].emu.pend == states[k].emu.pend
  {
    hide Inv, Next, Backed;
    var n := |states[d + 1].frames|;
    RunKeepsInv(states, events, k);
    RunKeepsOldFrames(states, events, d + 1, k, n);
    DeliveryPushesFrame(states[d], events[d].env, states[d + 1]);
    assert states[k].frames == states[k].frames[..n] && states[d + 1].frames == states[d + 1].frames[..n];
    ReturnPopsFrame(states[k], events[k].env, states[k + 1]);
  }

  // ----- draining the pending signals

  /** One signal handled by a handler that only returns: delivery, guest code, sigreturn. */
  datatype Round = Round(sig: Signo, before: Sys, env: Env, framed: Sys, returning: Sys, back: Env, after: Sys)
  {
    predicate Valid() {
      && Next(before, TailStep(env), framed)
      && TailKindOf(env, before.emu) == TailKind.Delivered(sig)
      && Next(framed, GuestRuns, returning)
      && Next(returning, ReturnStep(back), after)
    }
  }

  lemma TailPicksLeast(env: Env, s: EmuState)
    requires env.Valid() && MachineOk(env.segs, s.m) && TailKindOf(env, s).Delivered?
    ensures IsLeast(TailKindOf(env, s).sig, Members(s.pend) - Members(s.mask))
    ensures Tail(env, s).pend == ClearSig(s.pend, TailKindOf(env, s).sig)
  {
    hide BuildFrame, Backed, Or, And, Not;
    FirstFromLeast(Active(s.pend, s.mask), 1);
    MembersOfOperations(s.pend, EMPTY, s.mask, 1);
  }

  /** In guest code the tail is idle exactly when every pending signal is masked. */
  lemma TailIdleIff(env: Env, s: EmuState)
    requires env.Valid() && MachineOk(env.segs, s.m) && InGuest(s.m.regs)
    ensures TailKindOf(env, s).Idle? <==> Members(s.pend) <= Members(s.mask)
  {
    hide BuildFrame, Backed, Active, FirstFrom, Members, IsSpecialHandler;
    ActiveEmptyIff(s.pend, s.mask);
  }

  lemma ActiveEmptyIff(pend: Sigset, mask: Sigset)
    ensures Active(pend, mask) == EMPTY <==> Members(pend) <= Members(mask)
  {
    hide Active;
    MembersOfOperations(pend, EMPTY, mask, 1);
    assert Members(EMPTY) == {};
    if Members(pend) <= Members(mask) {
      MembersInjective(Active(pend, mask), EMPTY);
    }
  }

  lemma RoundEffect(r: Round)
    requires Inv(r.before) && r.Valid()
    ensures Inv(r.after)
    ensures IsLeast(r.sig, Members(r.before.emu.pend) - Members(r.before.emu.mask))
    ensures Members(r.after.emu.pend) == Members(r.before.emu.pend) - {r.sig}
    ensures r.after.emu.mask == r.before.emu.mask
    ensures forall k :: 0 <= k < 16 && k != FS ==> r.after.Regs()[k] == r.before.Regs()[k]
  {
    var states := [r.before, r.framed, r.returning, r.after];
    var events := [TailStep(r.env), GuestRuns, ReturnStep(r.back)];
    RoundIsRun(r);
    SigreturnRestoresDelivery(states, events, 0, 2);
    RunKeepsInv(states, events, 3);
    RoundPending(r);
  }

  lemma RoundIsRun(r: Round)
    requires Inv(r.before) && r.Valid()
    ensures var states := [r.before, r.framed, r.returning, r.after];
      var events := [TailStep(r.env), GuestRuns, ReturnStep(r.back)];
      IsRun(states, events) && Matches(states, events, 0, 2)
  {
    hide Inv, Tail, TailKindOf, Sigreturn, Backed, FramesUntouched, Disciplined, ReturnReady;
  }

  lemma RoundPending(r: Round)
    requires Inv(r.before) && r.Valid()
    ensures IsLeast(r.sig, Members(r.before.emu.pend) - Members(r.before.emu.mask))
    ensures Members(r.returning.emu.pend) == Members(r.before.emu.pend) - {r.sig}
  {
    hide Tail, TailKindOf, Backed, Sigreturn, ReturnReady, FramesUntouched, Disciplined, Or, And, Not;
    TailPicksLeast(r.env, r.before.emu);
    MembersOfOperations(r.before.emu.pend, EMPTY, EMPTY, r.sig);
  }

  predicate IsDrain(s: Sys, rounds: seq<Round>) {
    && (rounds != [] ==> rounds[0].before == s)
    && (forall i :: 0 <= i < |rounds| ==> rounds[i].Valid())
    && forall i :: 0 < i < |rounds| ==> rounds[i].before == rounds[i - 1].after
  }

  function End(s: Sys, rounds: seq<Round>): Sys {
    if rounds == [] then s else rounds[|rounds| - 1].after
  }

  function Delivered(rounds: seq<Round>): (sigs: seq<Signo>)
    ensures |sigs| == |rounds|
  {
    if rounds == [] then [] else [rounds[0].sig] + Delivered(rounds[1..])
  }

  function Elements(sigs: seq<Signo>): set<Signo> { set x | x in sigs }

  /** Some of the signals of a set: ascending, and none that is left out comes before one that is in. */
  predicate OrderedPart(sigs: seq<Signo>, active: set<Signo>) {
    && Ascending(sigs) && Elements(sigs) <= active
    && forall x, y :: x in sigs && y in active - Elements(sigs) ==> x < y
  }

  /**
   However far a drain got, with handlers that only return and nothing new arriving: the signals
   delivered so far are the lowest of the pending unmasked ones, in ascending order and each once;
   they alone are no longer pending; mask and registers are back. The drain is at its end exactly
   when there were as many rounds as pending unmasked signals.
   */
  lemma {:induction false} DrainInOrder(s: Sys, rounds: seq<Round>)
    requires Inv(s) && IsDrain(s, rounds)
    ensures Inv(End(s, rounds))
    ensures OrderedPart(Delivered(rounds), Members(s.emu.pend) - Members(s.emu.mask))
    ensures Members(End(s, rounds).emu.pend) == Members(s.emu.pend) - Elements(Delivered(rounds))
    ensures End(s, rounds).emu.mask == s.emu.mask
    ensures forall k :: 0 <= k < 16 && k != FS ==> End(s, rounds).Regs()[k] == s.Regs()[k]
    ensures |rounds| <= |Members(s.emu.pend) - Members(s.emu.mask)|
    ensures |rounds| == |Members(s.emu.pend) - Members(s.emu.mask)|
       <==> Members(End(s, rounds).emu.pend) <= Members(s.emu.mask)
    decreases |rounds|
  {
    hide Inv, Round.Valid, Members, OrderedPart, IsLeast, Elements;
    var active := Members(s.emu.pend) - Members(s.emu.mask);
    if rounds == [] {
      NothingDelivered(active);
      EmptyIff(active);
    } else {
      var r, rest := rounds[0], rounds[1..];
      DrainRest(s, rounds);
      RoundEffect(r);
      DrainInOrder(r.after, rest);
      LessPending(Members(s.emu.pend), Members(s.emu.mask), r.sig);
      OrderedCons(r.sig, Delivered(rest), active);
      SetMinusCons(Members(s.emu.pend), r.sig, Delivered(rest));
    }
  }

  lemma NothingDelivered(active: set<Signo>)
    ensures OrderedPart([], active) && Elements([]) == {}
  {
  }

  lemma EmptyIff(active: set<Signo>)
    ensures |active| == 0 <==> active == {}
  {
  }

  lemma DrainRest(s: Sys, rounds: seq<Round>)
    requires IsDrain(s, rounds) && rounds != []
    ensures IsDrain(rounds[0].after, rounds[1..]) && End(rounds[0].after, rounds[1..]) == End(s, rounds)
    ensures rounds[0].Valid() && rounds[0].before == s
  {
    hide Round.Valid;
  }

  lemma LessPending(pend: set<Signo>, mask: set<Signo>, sig: Signo)
    requires IsLeast(sig, pend - mask)
    ensures (pend - {sig}) - mask == (pend - mask) - {sig}
    ensures |(pend - mask) - {sig}| == |pend - mask| - 1
  {
  }

  lemma SetMinusCons(pend: set<Signo>, x: Signo, sigs: seq<Signo>)
    ensures pend - {x} - Elements(sigs) == pend - Elements([x] + sigs)
  {
  }

  lemma ElementsCons(x: Signo, sigs: seq<Signo>)
    ensures Elements([x] + sigs) == {x} + Elements(sigs)
  {
  }

  lemma OrderedCons(x: Signo, sigs: seq<Signo>, active: set<Signo>)
    requires IsLeast(x, active) && OrderedPart(sigs, active - {x})
    ensures OrderedPart([x] + sigs, active)
  {
    ElementsCons(x, sigs);
    forall i | 0 <= i < |sigs| ensures x < sigs[i] {
      assert sigs[i] in Elements(sigs);
    }
    forall z, y | z in [x] + sigs && y in active - Elements([x] + sigs) ensures z < y {
      assert z == x || z in sigs;
      assert y in active - {x} - Elements(sigs);
    }
  }

  // ----- a drain gets to its end

  /** Guest code was interrupted with room for a frame, and every pending unmasked signal has a handler. */
  predicate Drainable(s: Sys, env: Env) {
    && env.Valid() && env.segs == s.segs && env.bits == s.bits && env.sigtab.Some?
    && InGuest(s.Regs()) && HasRoom(s.segs, s.Regs(), 64 + ArgumentBytes(s.bits))
    && forall sig :: sig in Members(s.emu.pend) - Members(s.emu.mask) ==>
         !IsSpecialHandler(env.sigtab.value.actions[sig - 1].handler)
  }

  lemma Deliverable(s: Sys, env: Env)
    requires MachineOk(s.segs, s.emu.m) && Drainable(s, env) && !(Members(s.emu.pend) <= Members(s.emu.mask))
    ensures TailKindOf(env, s.emu).Delivered?
  {
    hide TailKindOf, HasRoom, InGuest, Backed, Active, FirstFrom, IsSpecialHandler, Members;
    var active := Active(s.emu.pend, s.emu.mask);
    ActiveEmptyIff(s.emu.pend, s.emu.mask);
    MembersOfOperations(s.emu.pend, EMPTY, s.emu.mask, 1);
    FirstFromLeast(active, 1);
    var sig := FirstFrom(active, 1);
    assert IsLeast(sig, Members(s.emu.pend) - Members(s.emu.mask));
    DeliveredIff(env, s.emu);
  }

  /** The state just before a handler returns that left everything but the stack pointer alone. */
  function Returning(s: Sys, framed: Sys): Sys
    requires Frame(s.Regs(), s.emu.mask).Low() >= 2
  {
    var esp := Frame(s.Regs(), s.emu.mask).Low() - (if s.bits == B16 then 2 else 0);
    framed.(emu := framed.emu.(m := framed.emu.m.(regs := framed.Regs()[ESP := esp])))
  }

  lemma GuestReturns(s: Sys, env: Env, framed: Sys)
    requires Inv(framed) && env.Valid() && env.segs == s.segs && env.bits == s.bits
    requires MachineOk(s.segs, s.emu.m) && TailKindOf(env, s.emu).Delivered?
    requires framed == s.(emu := Tail(env, s.emu), frames := s.frames + [Frame(s.Regs(), s.emu.mask)])
    ensures Frame(s.Regs(), s.emu.mask).Low() >= 2
    ensures Next(framed, GuestRuns, Returning(s, framed)) && ReturnReady(Returning(s, framed))
  {
    hide Tail, TailKindOf, Backed, Frame.Live, OnlyStackChanged, Inv, ArgumentData, Translate;
    TailDelivers(env, s.emu);
    DeliveryCallsHandler(env, s.emu);
    InvMachine(framed);
    if s.bits == B16 {
      StackWord(env, s.emu);
    }
  }

  lemma InvMachine(s: Sys)
    requires Inv(s)
    ensures MachineOk(s.segs, s.emu.m)
  {
  }

  /** The 16-bit argument stays accessible at the stack pointer. */
  lemma StackWord(env: Env, s: EmuState)
    requires env.Valid() && env.bits == B16 && MachineOk(env.segs, s.m) && TailKindOf(env, s).Delivered?
    ensures var r := Tail(env, s).m.regs; Translate(env.segs, r[SS], r[ESP], 2).Some?
  {
    hide Tail, TailKindOf, Backed, Translate, StackHolds, ArgumentData, IsSpecialHandler, Members;
    DeliveryCallsHandler(env, s);
    var sig := TailKindOf(env, s).sig;
    StackAccessible(env.segs, Tail(env, s).m, ArgumentData(B16, sig, env.sigtab.value.actions[sig - 1].handler));
  }

  lemma StackAccessible(segs: SegTable, m: Machine, data: seq<byte>)
    requires MachineOk(segs, m) && StackHolds(segs, m, data)
    ensures Translate(segs, m.regs[SS], m.regs[ESP], |data|).Some?
  {
  }

  /** While some pending signal is not masked, there is another round. */
  lemma RoundExists(s: Sys, env: Env) returns (r: Round)
    requires Inv(s) && Drainable(s, env) && !(Members(s.emu.pend) <= Members(s.emu.mask))
    ensures r.Valid() && r.before == s && r.after.segs == s.segs && r.after.bits == s.bits
  {
    hide Inv, Tail, TailKindOf, Backed, Frame.Live, Sigreturn, Drainable, Members, ReturnReady, FramesUntouched, Disciplined;
    InvMachine(s);
    DrainableEnv(s, env);
    Deliverable(s, env);
    var f := Frame(s.Regs(), s.emu.mask);
    var framed := s.(emu := Tail(env, s.emu), frames := s.frames + [f]);
    assert Next(s, TailStep(env), framed);
    NextKeepsInv(s, TailStep(env), framed);
    GuestReturns(s, env, framed);
    var returning := Returning(s, framed);
    NextKeepsInv(framed, GuestRuns, returning);
    SigreturnEffect(returning, env);
    InvMachine(returning);
    var after := returning.(emu := Sigreturn(env, returning.emu).s, frames := s.frames);
    assert returning.frames[..|returning.frames| - 1] == s.frames;
    assert Next(returning, ReturnStep(env), after);
    r := Round(TailKindOf(env, s.emu).sig, s, env, framed, returning, env, after);
  }

  lemma DrainableEnv(s: Sys, env: Env)
    requires Drainable(s, env)
    ensures env.Valid() && env.segs == s.segs && env.bits == s.bits
  {
  }

  lemma StaysDrainable(s: Sys, env: Env, t: Sys, sig: Signo)
    requires Drainable(s, env) && t.segs == s.segs && t.bits == s.bits && t.emu.mask == s.emu.mask
    requires Members(t.emu.pend) == Members(s.emu.pend) - {sig}
    requires forall k :: 0 <= k < 16 && k != FS ==> t.Regs()[k] == s.Regs()[k]
    ensures Drainable(t, env)
  {
    hide Members, IsSpecialHandler, Translate;
    assert t.Regs()[CS] == s.Regs()[CS] && t.Regs()[ESP] == s.Regs()[ESP] && t.Regs()[SS] == s.Regs()[SS];
    forall x | x in Members(t.emu.pend) - Members(t.emu.mask)
      ensures !IsSpecialHandler(env.sigtab.value.actions[x - 1].handler)
    {
      assert x in Members(s.emu.pend) - Members(s.emu.mask);
    }
  }

  lemma {:induction false} DrainExists(s: Sys, env: Env) returns (rounds: seq<Round>)
    requires Inv(s) && Drainable(s, env)
    ensures IsDrain(s, rounds) && Members(End(s, rounds).emu.pend) <= Members(s.emu.mask)
    decreases |Members(s.emu.pend) - Members(s.emu.mask)|
  {
    hide Inv, Round.Valid, Members, Drainable, IsLeast;
    if Members(s.emu.pend) <= Members(s.emu.mask) {
      rounds := [];
    } else {
      var r := RoundExists(s, env);
      RoundEffect(r);
      StaysDrainable(s, env, r.after, r.sig);
      LessPending(Members(s.emu.pend), Members(s.emu.mask), r.sig);
      var rest := DrainExists(r.after, env);
      rounds := [r] + rest;
      DrainCons(s, r, rest);
    }
  }

  lemma DrainCons(s: Sys, r: Round, rest: seq<Round>)
    requires r.Valid() && r.before == s && IsDrain(r.after, rest)
    ensures IsDrain(s, [r] + rest) && End(s, [r] + rest) == End(r.after, rest)
  {
    hide Round.Valid;
    var rounds := [r] + rest;
    forall i | 0 < i < |rounds| ensures rounds[i].before == rounds[i - 1].after {
      assert i > 1 ==> rounds[i] == rest[i - 1] && rounds[i - 1] == rest[i - 2];
    }
  }

  /**
   From every state in which guest code was interrupted, with room for one frame and a handler for
   every pending unmasked signal, there is a drain that delivers exactly those signals, each once
   and in ascending order, in as many rounds; at its end mask and registers are back, every masked
   signal is still pending, and nothing is left to deliver.
   */
  lemma DrainDeliversInOrder(s: Sys, env: Env) returns (rounds: seq<Round>)
    requires Inv(s) && Drainable(s, env)
    ensures IsDrain(s, rounds)
    ensures Ascending(Delivered(rounds))
    ensures Elements(Delivered(rounds)) == Members(s.emu.pend) - Members(s.emu.mask)
    ensures |rounds| == |Members(s.emu.pend) - Members(s.emu.mask)|
    ensures End(s, rounds).emu.mask == s.emu.mask
    ensures Members(End(s, rounds).emu.pend) == Members(s.emu.pend) * Members(s.emu.mask)
    ensures forall k :: 0 <= k < 16 && k != FS ==> End(s, rounds).Regs()[k] == s.Regs()[k]
  {
    hide Inv, IsDrain, Members, Drainable, Elements, Ascending;
    rounds := DrainExists(s, env);
    DrainInOrder(s, rounds);
  }
}
