/**
 Delivery of emulated signals: signal_tail builds a frame on the guest stack, sigreturn takes it
 down (src/emu.cpp).
 */
module Signals {
  import opened Words
  import opened Segments
  import opened Sigsets
  import opened GuestContexts

  const REDLINE := 128

  const QSIG_DFL: u32 := 0
  const QSIG_IGN: u32 := 1
  const QSIG_HOLD: u32 := 2
  const QSIG_ERR: u32 := 0xFFFF_FFFF

  datatype Sigaction = Sigaction(handler: u32, mask: Sigset)

  /** The table the guest registered: the stub that calls handlers, and one entry per signal. */
  datatype Sigtab = Sigtab(sigstub: u32, actions: seq<Sigaction>)

  /** What delivery reads but does not change. */
  datatype Env = Env(segs: SegTable, bits: Bitness, loadCs: u16, sigtab: Option<Sigtab>)
  {
    predicate Valid() { sigtab.Some? ==> |sigtab.value.actions| == 32 }
  }

  // ----- the table in guest memory

  const SIGACTION_SIZE: nat := 10
  const SIGTAB_SIZE: nat := 324

  /** The table as its 324 bytes say: the stub, then handler, mask and flags of each signal. */
  function SigtabOf(b: seq<byte>): (t: Sigtab)
    requires |b| == SIGTAB_SIZE
    ensures |t.actions| == 32
  {
    Sigtab(Decode32(b[..4]), seq(32, i requires 0 <= i < 32 => ActionOf(b, i)))
  }

  function ActionOf(b: seq<byte>, i: nat): Sigaction
    requires |b| == SIGTAB_SIZE && i < 32
  {
    var e := 4 + SIGACTION_SIZE * i;
    Sigaction(Decode32(b[e..e + 4]), FromWord(Decode32(b[e + 4..e + 8])))
  }

  /** One signal's entry as the guest registered it. */
  datatype Registered = Registered(handler: u32, mask: u32, flags: u16)

  function EntryBytes(e: Registered): (b: seq<byte>)
    ensures |b| == SIGACTION_SIZE
  {
    Encode32(e.handler) + Encode32(e.mask) + Encode16(e.flags)
  }

  function EntriesBytes(es: seq<Registered>): (b: seq<byte>)
    ensures |b| == SIGACTION_SIZE * |es|
  {
    if es == [] then [] else EntryBytes(es[0]) + EntriesBytes(es[1..])
  }

  lemma {:induction false} EntryAt(es: seq<Registered>, i: nat)
    requires i < |es|
    ensures EntriesBytes(es)[SIGACTION_SIZE * i..SIGACTION_SIZE * i + SIGACTION_SIZE] == EntryBytes(es[i])
  {
    hide EntryBytes;
    var b := EntriesBytes(es);
    if i == 0 {
      assert b[0..SIGACTION_SIZE] == EntryBytes(es[0]);
    } else {
      EntryAt(es[1..], i - 1);
      assert b[SIGACTION_SIZE..] == EntriesBytes(es[1..]);
      SliceOfSlice(b, SIGACTION_SIZE, |b|, SIGACTION_SIZE * (i - 1), SIGACTION_SIZE * (i - 1) + SIGACTION_SIZE);
    }
  }

  lemma EntryReadsBack(e: Registered)
    ensures var b := EntryBytes(e); Decode32(b[0..4]) == e.handler && Decode32(b[4..8]) == e.mask
  {
    hide Encode32, Encode16, Decode32;
    var b := EntryBytes(e);
    assert b[0..4] == Encode32(e.handler) && b[4..8] == Encode32(e.mask);
    DecodeEncode32(e.handler);
    DecodeEncode32(e.mask);
  }

  lemma ActionReadsBack(stub: u32, es: seq<Registered>, i: nat)
    requires |es| == 32 && i < 32
    ensures ActionOf(Encode32(stub) + EntriesBytes(es), i) == Sigaction(es[i].handler, FromWord(es[i].mask))
  {
    hide EntryBytes, EntriesBytes, Encode32, Decode32, FromWord;
    var all := Encode32(stub) + EntriesBytes(es);
    var e := 4 + SIGACTION_SIZE * i;
    EntryAt(es, i);
    assert all[e..e + SIGACTION_SIZE] == EntryBytes(es[i]);
    SliceOfSlice(all, e, e + SIGACTION_SIZE, 0, 4);
    SliceOfSlice(all, e, e + SIGACTION_SIZE, 4, 8);
    EntryReadsBack(es[i]);
  }

  /** A table in guest memory reads back as what the guest registered. */
  lemma SigtabReadsBack(stub: u32, es: seq<Registered>)
    requires |es| == 32
    ensures var t := SigtabOf(Encode32(stub) + EntriesBytes(es));
      && t.sigstub == stub
      && forall i :: 0 <= i < 32 ==> t.actions[i] == Sigaction(es[i].handler, FromWord(es[i].mask))
  {
    hide EntriesBytes, Encode32, Decode32, FromWord, ActionOf;
    var b := Encode32(stub) + EntriesBytes(es);
    assert b[..4] == Encode32(stub);
    DecodeEncode32(stub);
    forall i | 0 <= i < 32 ensures SigtabOf(b).actions[i] == Sigaction(es[i].handler, FromWord(es[i].mask)) {
      ActionReadsBack(stub, es, i);
    }
  }

  datatype EmuState = EmuState(pend: Sigset, mask: Sigset, m: Machine)

  datatype TailKind = ToHost | Idle | Crashed | Delivered(sig: Signo)

  predicate IsSpecialHandler(h: u32) {
    h == QSIG_DFL || h == QSIG_HOLD || h == QSIG_ERR || h == QSIG_IGN
  }

  /** The LDT bit of the code selector: clear while the host's own code is interrupted. */
  predicate InGuest(r: Regs) { r[CS] / 4 % 2 == 1 }

  lemma SpecialHandlers(h: u32)
    ensures IsSpecialHandler(h) <==> h in {0, 1, 2, 0xFFFF_FFFF}
  {
  }

  /** Selectors made for the LDT are the guest's; those without the table bit, of the global table, are the host's. */
  lemma InGuestExact(r: Regs, id: nat, host: u16)
    requires host / 4 % 2 == 0
    ensures MakeSelector(id) < 0x1_0000 ==> InGuest(r[CS := MakeSelector(id)])
    ensures !InGuest(r[CS := host])
  {
  }

  // ----- the steps as functions

  /** The words from the saved mask up, for a context interrupted with registers r. */
  function FrameWords(mask: Sigset, r: Regs): (ws: seq<u32>)
    ensures |ws| == 16
  {
    [ToWord(mask)] + ContextWords(Moved(r, -REDLINE))
  }

  /** The stack work of one delivery: red zone, context, mask, arguments of the stub. */
  function BuildFrame(env: Env, m: Machine, mask: Sigset, sig: Signo, handler: u32): (o: Outcome)
    requires MachineOk(env.segs, m)
    ensures MachineOk(env.segs, o.m)
  {
    var o := PushAll(env.segs, Outcome(m.(regs := Moved(m.regs, -REDLINE)), true), FrameWords(mask, m.regs));
    if env.bits == B32 then PushAll(env.segs, o, [handler, sig, 0]) else Push16(env.segs, o, sig)
  }

  /** Control goes to the stub: a flat address, or an offset:segment pair packed in one word. */
  function EnterStub(env: Env, r: Regs): Regs
    requires env.sigtab.Some?
  {
    var stub := env.sigtab.value.sigstub;
    if env.bits == B32 then r[CS := env.loadCs][EIP := stub]
    else r[CS := stub / 0x1_0000][EIP := stub % 0x1_0000]
  }

  function TailKindOf(env: Env, s: EmuState): TailKind
    requires env.Valid() && MachineOk(env.segs, s.m)
  {
    if !InGuest(s.m.regs) then ToHost
    else if Active(s.pend, s.mask) == EMPTY then Idle
    else
      FirstFromLeast(Active(s.pend, s.mask), 1);
      var sig := FirstFrom(Active(s.pend, s.mask), 1);
      if env.sigtab.None? then Crashed
      else
        var act := env.sigtab.value.actions[sig - 1];
        if IsSpecialHandler(act.handler) || !BuildFrame(env, s.m, s.mask, sig, act.handler).ok then Crashed
        else Delivered(sig)
  }

  /**
   signal_tail. A crash is an exception that leaves the signal handler and ends the process; the
   signal is no longer pending then, and for a fault during the pushes the mask has changed too.
   */
  function Tail(env: Env, s: EmuState): (t: EmuState)
    requires env.Valid() && MachineOk(env.segs, s.m)
    ensures MachineOk(env.segs, t.m)
  {
    match TailKindOf(env, s)
    case Delivered(sig) =>
      var act := env.sigtab.value.actions[sig - 1];
      var o := BuildFrame(env, s.m, s.mask, sig, act.handler);
      EmuState(ClearSig(s.pend, sig), SetSig(Or(s.mask, act.mask), sig), o.m.(regs := EnterStub(env, o.m.regs)))
    case Crashed =>
      FirstFromLeast(Active(s.pend, s.mask), 1);
      var sig := FirstFrom(Active(s.pend, s.mask), 1);
      if env.sigtab.None? || IsSpecialHandler(env.sigtab.value.actions[sig - 1].handler) then s.(pend := ClearSig(s.pend, sig))
      else
        var act := env.sigtab.value.actions[sig - 1];
        EmuState(ClearSig(s.pend, sig), SetSig(Or(s.mask, act.mask), sig), BuildFrame(env, s.m, s.mask, sig, act.handler).m)
    case _ => s
  }

  datatype SigreturnResult = SigreturnResult(s: EmuState, ok: bool)

  /** syscall_sigreturn and syscall16_sigreturn; ok is false for a segmentation fault on the way. */
  function Sigreturn(env: Env, s: EmuState): (t: SigreturnResult)
    requires MachineOk(env.segs, s.m)
    ensures MachineOk(env.segs, t.s.m)
  {
    if env.bits == B16 && Translate(env.segs, s.m.regs[SS], s.m.regs[ESP], 2).None? then SigreturnResult(s, false)
    else
      var m := if env.bits == B16 then s.m.(regs := Moved(s.m.regs, 2)) else s.m;
      PopFrame(env.segs, s.(m := m))
  }

  /** The part of sigreturn from the saved mask on. */
  function PopFrame(segs: SegTable, s: EmuState): (t: SigreturnResult)
    requires MachineOk(segs, s.m)
    ensures MachineOk(segs, t.s.m)
  {
    match PeekStack(segs, s.m, s.m.regs[ESP])
    case None => SigreturnResult(s, false)
    case Some(w) =>
      var o := RestoreFrom(segs, Outcome(s.m.(regs := Moved(s.m.regs, 4)), true), 0);
      SigreturnResult(EmuState(s.pend, FromWord(w), if o.ok then o.m.(regs := Moved(o.m.regs, REDLINE)) else o.m), o.ok)
  }
}
