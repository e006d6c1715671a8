/**
 The emulator's signal state and its steps (src/emu.cpp). The signal table lies in guest memory, at
 the place the guest registered (src/main_handler.cpp), and is read there.
 */
module Emulators {
  import opened Words
  import opened Segments
  import opened Sigsets
  import opened GuestContexts
  import opened Signals
  import opened SignalRuns

  predicate TableInside(mem: seq<byte>, table: Option<nat>) { table.Some? ==> table.value + SIGTAB_SIZE <= |mem| }

  /** The table as it reads now; None before the guest registered one. */
  function ReadTable(mem: seq<byte>, table: Option<nat>): Option<Sigtab>
    requires TableInside(mem, table)
  {
    if table.None? then None else Some(SigtabOf(mem[table.value..table.value + SIGTAB_SIZE]))
  }

  /** A frame pushed with these registers does not touch the table. */
  predicate FrameApart(segs: SegTable, r: Regs, bits: Bitness, table: Option<nat>) {
    table.Some? && SelectorId(r[SS]) in segs ==>
      var top := segs[SelectorId(r[SS])].location + r[ESP] - REDLINE;
      table.value + SIGTAB_SIZE <= top - 64 - ArgumentBytes(bits) || top <= table.value
  }

  lemma TableReadsSame(segs: SegTable, ss: u16, mem: seq<byte>, mem': seq<byte>, lo: int, hi: int, table: Option<nat>)
    requires TableInside(mem, table) && OnlyStackChanged(segs, ss, mem, mem', lo, hi)
    requires table.Some? ==> var base := segs[SelectorId(ss)].location;
      table.value + SIGTAB_SIZE <= base + lo || base + hi <= table.value
    ensures TableInside(mem', table) && ReadTable(mem', table) == ReadTable(mem, table)
  {
    hide SigtabOf;
    if table.Some? {
      var a := table.value;
      assert mem'[a..a + SIGTAB_SIZE] == mem[a..a + SIGTAB_SIZE];
    }
  }

  lemma ChangesJoin(segs: SegTable, ss: u16, a: seq<byte>, b: seq<byte>, c: seq<byte>, lo: int, mid: int, hi: int)
    requires OnlyStackChanged(segs, ss, a, b, mid, hi) && OnlyStackChanged(segs, ss, b, c, lo, mid) && lo <= mid <= hi
    ensures OnlyStackChanged(segs, ss, a, c, lo, hi)
  {
  }

  /** The table is still intact when the handler is read from it, behind two of the stub's arguments. */
  lemma TableAtArguments(env: Env, m: Machine, mask: Sigset, sig: Signo, table: Option<nat>)
    requires MachineOk(env.segs, m) && TableInside(m.mem, table) && FrameApart(env.segs, m.regs, B32, table)
    ensures var framed := PushAll(env.segs, Outcome(m.(regs := Moved(m.regs, -REDLINE)), true), FrameWords(mask, m.regs));
      var o := PushAll(env.segs, framed, [sig as u32, 0]);
      o.ok ==> TableInside(o.m.mem, table) && ReadTable(o.m.mem, table) == ReadTable(m.mem, table)
  {
    hide PushAll, FrameWords, Backed, Translate, OnlyStackChanged, Frame.Live, EncodeAll, BlockPushed, ReadTable;
    var segs, f := env.segs, Frame(m.regs, mask);
    var framed := PushAll(segs, Outcome(m.(regs := Moved(m.regs, -REDLINE)), true), FrameWords(mask, m.regs));
    var o := PushAll(segs, framed, [sig as u32, 0]);
    if !framed.ok {
      PushAllKeepsFailure(segs, framed, [sig as u32, 0]);
    }
    if o.ok {
      ContextPushed(segs, m, mask);
      assert framed == Outcome(framed.m, true);
      PushAllEffect(segs, framed.m, [sig as u32, 0]);
      BlockIsOneChange(segs, framed.m, EncodeAll([sig as u32, 0]), o);
      ChangesJoin(segs, m.regs[SS], m.mem, framed.m.mem, o.m.mem, f.Low() - 8, f.Low(), (m.regs[ESP] as int) - REDLINE);
      StackPresent(segs, m.regs[SS], m.mem, o.m.mem, f.Low() - 8, (m.regs[ESP] as int) - REDLINE);
      TableReadsSame(segs, m.regs[SS], m.mem, o.m.mem, f.Low() - 8, (m.regs[ESP] as int) - REDLINE, table);
    }
  }

  lemma StackPresent(segs: SegTable, ss: u16, mem: seq<byte>, mem': seq<byte>, lo: int, hi: int)
    requires OnlyStackChanged(segs, ss, mem, mem', lo, hi)
    ensures SelectorId(ss) in segs
  {
  }

  /** After a fault it does not matter which handler would be pushed. */
  lemma LastArgument(segs: SegTable, framed: Outcome, o: Outcome, sig: Signo, handler: u32, registered: u32)
    requires MachineOk(segs, framed.m) && o == PushAll(segs, framed, [sig as u32, 0]) && (o.ok ==> handler == registered)
    ensures MachineOk(segs, o.m) && Push(segs, o, handler) == PushAll(segs, framed, [registered, sig, 0])
  {
  }

  /** And when the address of the stub is read, behind the whole frame. */
  lemma TableAtStub(env: Env, m: Machine, mask: Sigset, sig: Signo, handler: u32, table: Option<nat>)
    requires MachineOk(env.segs, m) && TableInside(m.mem, table) && FrameApart(env.segs, m.regs, env.bits, table)
    ensures var o := BuildFrame(env, m, mask, sig, handler);
      o.ok ==> TableInside(o.m.mem, table) && ReadTable(o.m.mem, table) == ReadTable(m.mem, table)
  {
    hide BuildFrame, Backed, Translate, OnlyStackChanged, Frame.Live, StackHolds, ReadTable;
    var (f, o) := (Frame(m.regs, mask), BuildFrame(env, m, mask, sig, handler));
    if o.ok {
      DeliveryEffect(env, m, mask, sig, handler);
      var (lo, hi) := (f.Low() - ArgumentBytes(env.bits), (m.regs[ESP] as int) - REDLINE);
      StackPresent(env.segs, m.regs[SS], m.mem, o.m.mem, lo, hi);
      TableReadsSame(env.segs, m.regs[SS], m.mem, o.m.mem, lo, hi, table);
    }
  }

  // ----- the object

  /** signal_tail, way out by way out. */
  lemma TailCases(env: Env, s: EmuState)
    requires env.Valid() && MachineOk(env.segs, s.m)
    ensures var active := Active(s.pend, s.mask);
      var (sig, kind, t) := (FirstFrom(active, 1), TailKindOf(env, s), Tail(env, s));
      if !InGuest(s.m.regs) then kind == ToHost && t == s
      else if active == EMPTY then kind == Idle && t == s
      else
        && 1 <= sig <= 32
        && if env.sigtab.None? || IsSpecialHandler(env.sigtab.value.actions[sig - 1].handler)
           then kind == Crashed && t == s.(pend := ClearSig(s.pend, sig))
           else
             var act := env.sigtab.value.actions[sig - 1];
             var o := BuildFrame(env, s.m, s.mask, sig, act.handler);
             && kind == (if o.ok then TailKind.Delivered(sig) else Crashed)
             && t == EmuState(ClearSig(s.pend, sig), SetSig(Or(s.mask, act.mask), sig),
                              if o.ok then o.m.(regs := EnterStub(env, o.m.regs)) else o.m)
  {
    hide BuildFrame, Backed, Or, SetSig, ClearSig, Active, FirstFrom, IsSpecialHandler, InGuest;
    FirstFromLeast(Active(s.pend, s.mask), 1);
  }

  /**
   After a crash the least pending unmasked signal is no longer pending. Without a usable handler
   nothing else changed; when the frame did not fit, the mask is that of the handler already.
   */
  lemma CrashEffect(env: Env, s: EmuState) returns (sig: Signo)
    requires env.Valid() && MachineOk(env.segs, s.m) && TailKindOf(env, s).Crashed?
    ensures IsLeast(sig, Members(s.pend) - Members(s.mask))
    ensures Members(Tail(env, s).pend) == Members(s.pend) - {sig}
    ensures env.sigtab.Some? ==> |env.sigtab.value.actions| == 32
    ensures if env.sigtab.None? || IsSpecialHandler(env.sigtab.value.actions[sig - 1].handler)
         then Tail(env, s).mask == s.mask && Tail(env, s).m == s.m
         else Members(Tail(env, s).mask) == Members(s.mask) + Members(env.sigtab.value.actions[sig - 1].mask) + {sig}
  {
    hide TailKindOf, Tail, BuildFrame, Backed, Or, SetSig, ClearSig, Active, FirstFrom, IsSpecialHandler, InGuest, Members, IsLeast, Env.Valid;
    EnvActions(env);
    TailCases(env, s);
    var active := Active(s.pend, s.mask);
    FirstFromLeast(active, 1);
    MembersOfOperations(s.pend, EMPTY, s.mask, 1);
    sig := FirstFrom(active, 1);
    assert IsLeast(sig, Members(s.pend) - Members(s.mask));
    MembersOfOperations(s.pend, EMPTY, EMPTY, sig);
    if env.sigtab.Some? {
      DeliverySets(s.pend, s.mask, env.sigtab.value.actions[sig - 1].mask, sig);
    }
  }

  /** A sigreturn, faulting or not, writes no memory and makes no signal pending. */
  lemma SigreturnOnlyReads(env: Env, s: EmuState)
    requires MachineOk(env.segs, s.m)
    ensures Sigreturn(env, s).s.pend == s.pend && Sigreturn(env, s).s.m.mem == s.m.mem
    ensures !Sigreturn(env, s).ok && PeekStack(env.segs, s.m, s.m.regs[ESP]).None? && env.bits == B32 ==> Sigreturn(env, s).s == s
  {
    hide RestoreFrom, PeekStack, Translate, Backed, FromWord;
  }

  class Emu {
    var sigpend: Sigset
    var sigmask: Sigset

    constructor (mask: Sigset)
      ensures sigpend == EMPTY && sigmask == mask
    {
      sigpend, sigmask := EMPTY, mask;
    }

    function State(ctx: GuestContext): EmuState
      reads this, ctx
    {
      EmuState(sigpend, sigmask, ctx.State())
    }

    /** Also the effect of a host signal on arrival (handler_generic). */
    method SignalRaise(sig: Signo)
      modifies this
      ensures Members(sigpend) == Members(old(sigpend)) + {sig} && sigmask == old(sigmask)
    {
      sigpend := SetSig(sigpend, sig);
      MembersOfOperations(old(sigpend), EMPTY, EMPTY, sig);
    }

    method SignalMask(change: Sigset, bits: Sigset)
      modifies this
      ensures sigmask == Modify(old(sigmask), change, bits) && sigpend == old(sigpend)
      ensures Members(sigmask) == Members(old(sigmask)) - Members(change) + Members(bits) * Members(change)
    {
      sigmask := Modify(sigmask, change, bits);
      MembersOfOperations(old(sigmask), bits, change, 1);
    }

    /** A blocking call is cut short exactly when some pending signal is not masked. */
    method ShouldPreempt() returns (preempt: bool)
      ensures preempt <==> !(Members(sigpend) <= Members(sigmask))
    {
      var activesig := Modify(sigpend, sigmask, EMPTY);
      preempt := activesig != EMPTY;
      MembersOfOperations(sigpend, EMPTY, sigmask, 1);
      FirstFromLeast(activesig, 1);
      if activesig == EMPTY {
        assert Members(activesig) == {};
      }
    }

    /** The stack work of signal_tail, in its own order of pushes; the handler is read when it is pushed. */
    method PushFrame(ctx: GuestContext, env: Env, saveSigmask: Sigset, sig: Signo, table: Option<nat>) returns (ok: bool)
      requires env.Valid() && ctx.Valid() && ctx.segs == env.segs && table.Some?
      requires TableInside(ctx.mem, table) && env.sigtab == ReadTable(ctx.mem, table)
      requires FrameApart(env.segs, ctx.regs, env.bits, table)
      modifies ctx
      ensures ctx.Valid()
      ensures Outcome(ctx.State(), ok)
           == BuildFrame(env, old(ctx.State()), saveSigmask, sig, env.sigtab.value.actions[sig - 1].handler)
    {
      hide Backed, Push, ToWord, ContextWords, SigtabOf, Translate;
      ghost var m := ctx.State();
      ctx.regs := Moved(ctx.regs, -REDLINE);
      ghost var from := Outcome(ctx.State(), true);
      ok := ctx.SaveContext();
      ok := ctx.PushStack(ToWord(saveSigmask), ok);
      ghost var framed := Outcome(ctx.State(), ok);
      assert FrameWords(saveSigmask, m.regs)[1..] == ContextWords(Moved(m.regs, -REDLINE));
      assert framed == PushAll(env.segs, from, FrameWords(saveSigmask, m.regs));
      if env.bits == B32 {
        ok := ctx.PushStack(0, ok);
        ok := ctx.PushStack(sig, ok);
        PushTwo(env.segs, framed, 0, sig);
        TableAtArguments(env, m, saveSigmask, sig, table);
        var handler: u32 := 0;
        if ok {
          handler := ReadTable(ctx.mem, table).value.actions[sig - 1].handler;
        }
        LastArgument(env.segs, framed, Outcome(ctx.State(), ok), sig, handler, env.sigtab.value.actions[sig - 1].handler);
        ok := ctx.PushStack(handler, ok);
      } else {
        ok := ctx.PushStack16(sig, ok);
      }
    }

    /** `table` is where the guest registered its signal table. */
    method SignalTail(ctx: GuestContext, env: Env, table: Option<nat>) returns (kind: TailKind)
      requires env.Valid() && ctx.Valid() && ctx.segs == env.segs
      requires TableInside(ctx.mem, table) && env.sigtab == ReadTable(ctx.mem, table)
      requires FrameApart(env.segs, ctx.regs, env.bits, table)
      modifies this, ctx
      ensures ctx.Valid()
      ensures kind == TailKindOf(env, old(State(ctx)))
      ensures State(ctx) == Tail(env, old(State(ctx)))
    {
      hide BuildFrame, Backed, Or, SetSig, ClearSig, SigtabOf, Translate, Tail, TailKindOf, Active, FirstFrom, IsSpecialHandler, InGuest, FrameApart;
      ghost var s := State(ctx);
      TailCases(env, s);
      var activesig := Active(sigpend, sigmask);
      if !InGuest(ctx.regs) {
        return ToHost;
      }
      if activesig == EMPTY {
        return Idle;
      }
      var sig := FindFirst(activesig);
      FirstFromLeast(activesig, 1);
      sigpend := ClearSig(sigpend, sig);
      if table.None? {
        return Crashed;
      }
      var act := ReadTable(ctx.mem, table).value.actions[sig - 1];
      if IsSpecialHandler(act.handler) {
        return Crashed;
      }
      var saveSigmask := sigmask;
      sigmask := Or(sigmask, act.mask);
      sigmask := SetSig(sigmask, sig);

      TableAtStub(env, s.m, saveSigmask, sig, act.handler, table);
      var ok := PushFrame(ctx, env, saveSigmask, sig, table);
      if !ok {
        return Crashed;
      }
      ctx.regs := EnterStub(env.(sigtab := ReadTable(ctx.mem, table)), ctx.regs);
      return Delivered(sig);
    }

    method SyscallSigreturn(ctx: GuestContext, env: Env) returns (ok: bool)
      requires ctx.Valid() && ctx.segs == env.segs
      modifies this, ctx
      ensures ctx.Valid()
      ensures SigreturnResult(State(ctx), ok) == Sigreturn(env, old(State(ctx)))
    {
      if env.bits == B16 {
        var number;
        ok, number := ctx.PopStack16();  // thrown away
        if !ok {
          return;
        }
      }
      var mask;
      ok, mask := ctx.PopStack();
      if !ok {
        return;
      }
      sigmask := FromWord(mask);
      ok := ctx.RestoreContext();
      if ok {
        ctx.regs := Moved(ctx.regs, REDLINE);
      }
    }

    /** What the dispatcher makes of it: a fault becomes the error EFAULT. */
    method DispatchSigreturn(ctx: GuestContext, env: Env)
      requires ctx.Valid() && ctx.segs == env.segs
      modifies this, ctx
      ensures ctx.Valid()
      ensures State(ctx) == var t := Sigreturn(env, old(State(ctx)));
        if t.ok then t.s else t.s.(m := t.s.m.(regs := WithError(t.s.m.regs, EFAULT)))
    {
      hide Sigreturn, Backed;
      var ok := SyscallSigreturn(ctx, env);
      if !ok {
        ctx.regs := WithError(ctx.regs, EFAULT);
      }
    }
  }
}
