/**
 The guest's register file and stack (src/guest_context.cpp). Stack accesses go through SS and
 may raise a segmentation fault; `ok` becomes false at the first one and nothing more happens.
 */
module GuestContexts {
  import opened Words
  import opened Segments

  // Register numbers; 0 to 14 follow the order in which restore_context pops them.
  const SS := 0
  const GS := 1
  const ES := 2
  const DS := 3
  const EIP := 4
  const CS := 5
  const EFLAGS := 6
  const EDI := 7
  const ESI := 8
  const EBP := 9
  const ESP := 10
  const EBX := 11
  const EDX := 12
  const ECX := 13
  const EAX := 14
  const FS := 15

  predicate Is16Bit(k: int) { k == SS || k == GS || k == ES || k == DS || k == CS || k == FS }

  predicate RegsOk(r: seq<u32>) { |r| == 16 && forall k :: 0 <= k < 16 && Is16Bit(k) ==> r[k] < 0x1_0000 }

  /** The register file, by register number. */
  type Regs = r: seq<u32> | RegsOk(r) witness [0, 0, 0, 0, 0, 0, 0, 0, 0, 0, 0, 0, 0, 0, 0, 0]

  /** The stack pointer moved by d, with uint32_t wrap-around. */
  function Moved(r: Regs, d: int): Regs { r[ESP := Wrap32((r[ESP] as int) + d)] }

  datatype Machine = Machine(regs: Regs, mem: seq<byte>)

  datatype Outcome = Outcome(m: Machine, ok: bool)

  predicate MachineOk(segs: SegTable, m: Machine) { Backed(segs, m.mem) }

  // ----- single pushes and pops

  function WriteStack(segs: SegTable, m: Machine, esp: u32, data: seq<byte>): (o: Outcome)
    requires MachineOk(segs, m)
    ensures MachineOk(segs, o.m) && o.m.regs == m.regs[ESP := esp]
  {
    var m' := m.(regs := m.regs[ESP := esp]);
    match Translate(segs, m.regs[SS], esp, |data|)
    case None => Outcome(m', false)
    case Some(a) => Outcome(m'.(mem := Splice(m.mem, a, data)), true)
  }

  function Push(segs: SegTable, o: Outcome, value: u32): (o': Outcome)
    requires MachineOk(segs, o.m)
    ensures MachineOk(segs, o'.m)
  {
    if !o.ok then o else WriteStack(segs, o.m, Moved(o.m.regs, -4)[ESP], Encode32(value))
  }

  function Push16(segs: SegTable, o: Outcome, value: u16): (o': Outcome)
    requires MachineOk(segs, o.m)
    ensures MachineOk(segs, o'.m)
  {
    if !o.ok then o else WriteStack(segs, o.m, Moved(o.m.regs, -2)[ESP], Encode16(value))
  }

  /** Push ws from its last word to its first, so that memory holds ws in ascending order. */
  function PushAll(segs: SegTable, o: Outcome, ws: seq<u32>): (o': Outcome)
    requires MachineOk(segs, o.m)
    ensures MachineOk(segs, o'.m)
  {
    if ws == [] then o else Push(segs, PushAll(segs, o, ws[1..]), ws[0])
  }

  lemma PushNone(segs: SegTable, o: Outcome, r: Regs)
    requires MachineOk(segs, o.m)
    ensures PushAll(segs, o, r[15..15]) == o && Merged(r, r, r, 0, 0)
  {
  }

  lemma PushTwo(segs: SegTable, o: Outcome, a: u32, b: u32)
    requires MachineOk(segs, o.m)
    ensures PushAll(segs, o, [b, a]) == Push(segs, Push(segs, o, a), b)
  {
    hide Push, Backed;
    var ws: seq<u32> := [b, a];
    assert ws[1..] == [a] && ws[1..][1..] == [];
    assert PushAll(segs, o, ws[1..]) == Push(segs, o, a);
  }

  /** The word at SS:offset, or None for a fault. */
  function PeekStack(segs: SegTable, m: Machine, offset: u32): Option<u32>
    requires MachineOk(segs, m)
  {
    match Translate(segs, m.regs[SS], offset, 4)
    case None => None
    case Some(a) => Some(Decode32(m.mem[a..a + 4]))
  }

  function PeekStack16(segs: SegTable, m: Machine, offset: u32): Option<u16>
    requires MachineOk(segs, m)
  {
    match Translate(segs, m.regs[SS], offset, 2)
    case None => None
    case Some(a) => Some(Decode16(m.mem[a..a + 2]))
  }

  // ----- the saved context

  /** The words of save_context in ascending memory order: every register but FS. */
  function ContextWords(r: Regs): (ws: seq<u32>) { r[..15] }

  /** In memory the segment registers but FS come first, then EIP, CS and the flags, then the general registers. */
  lemma ContextLayout(r: Regs)
    ensures ContextWords(r)
      == [r[SS], r[GS], r[ES], r[DS]] + [r[EIP], r[CS], r[EFLAGS]]
         + [r[EDI], r[ESI], r[EBP], r[ESP], r[EBX], r[EDX], r[ECX], r[EAX]]
  {
  }

  /** What restore_context assigns from its k-th pop; the saved stack pointer is thrown away. */
  function Assign(r: Regs, k: nat, w: u32): Regs
    requires k < 15
  {
    if k == ESP then r else if Is16Bit(k) then r[k := Low16(w)] else r[k := w]
  }

  function PopStep(segs: SegTable, o: Outcome, k: nat): (o': Outcome)
    requires MachineOk(segs, o.m) && k < 15
    ensures MachineOk(segs, o'.m) && o'.m.mem == o.m.mem
  {
    if !o.ok then o else
    match PeekStack(segs, o.m, o.m.regs[ESP])
    case None => Outcome(o.m, false)
    case Some(w) => Outcome(o.m.(regs := Assign(Moved(o.m.regs, 4), k, w)), true)
  }

  /** restore_context from its k-th pop on. */
  function RestoreFrom(segs: SegTable, o: Outcome, k: nat): (o': Outcome)
    requires MachineOk(segs, o.m) && k <= 15
    ensures MachineOk(segs, o'.m) && o'.m.mem == o.m.mem
    decreases 15 - k
  {
    if k == 15 then o else RestoreFrom(segs, PopStep(segs, o, k), k + 1)
  }

  // ----- how a system call fails

  const EFAULT: u32 := 14

  /** set_syscall_error: the error number in EAX, and the carry flag. */
  function WithError(r: Regs, errno: u32): Regs {
    r[EAX := errno][EFLAGS := if r[EFLAGS] % 2 == 1 then r[EFLAGS] else r[EFLAGS] + 1]
  }

  /** The error is in EAX, the carry flag is set, every other flag and register is as it was. */
  lemma ErrorReported(r: Regs, errno: u32)
    ensures var t := WithError(r, errno);
      && t[EAX] == errno && t[EFLAGS] % 2 == 1 && t[EFLAGS] / 2 == r[EFLAGS] / 2
      && forall k :: 0 <= k < 16 && k != EAX && k != EFLAGS ==> t[k] == r[k]
  {
  }

  // ----- what a sequence of pushes does

  /** A push succeeds exactly when its bytes fit below the stack pointer; it never wraps around. */
  lemma WriteStackNoWrap(segs: SegTable, m: Machine, data: seq<byte>)
    requires MachineOk(segs, m) && 0 < |data| <= 4
    ensures WriteStack(segs, m, Moved(m.regs, -|data|)[ESP], data).ok
       <==> m.regs[ESP] >= |data| && Translate(segs, m.regs[SS], m.regs[ESP] - |data|, |data|).Some?
  {
    hide Translate, Backed;
    var esp := Moved(m.regs, -|data|)[ESP];
    if Translate(segs, m.regs[SS], esp, |data|).Some? {
      TranslateBacked(segs, m.mem, m.regs[SS], esp, |data|);
    }
  }

  /** `o` is `m` after the block `data` was put just below the stack pointer, if there was room. */
  predicate BlockPushed(segs: SegTable, m: Machine, data: seq<byte>, o: Outcome)
    requires MachineOk(segs, m)
  {
    var (esp, n) := (m.regs[ESP], |data|);
    if esp >= n && Translate(segs, m.regs[SS], esp - n, n).Some?
    then o == Outcome(Machine(m.regs[ESP := esp - n],
                              Splice(m.mem, Translate(segs, m.regs[SS], esp - n, n).value, data)), true)
    else !o.ok
  }

  lemma PushIsBlock(segs: SegTable, m: Machine, data: seq<byte>)
    requires MachineOk(segs, m) && 0 < |data| <= 4
    ensures BlockPushed(segs, m, data, WriteStack(segs, m, Moved(m.regs, -|data|)[ESP], data))
  {
    WriteStackNoWrap(segs, m, data);
    hide Translate, Backed;
  }

  lemma PushBelowBlock(segs: SegTable, m: Machine, data: seq<byte>, o: Outcome, word: seq<byte>)
    requires MachineOk(segs, m) && MachineOk(segs, o.m) && BlockPushed(segs, m, data, o) && o.ok
    requires |data| > 0 && 0 < |word| <= 4
    ensures BlockPushed(segs, m, word + data, WriteStack(segs, o.m, Moved(o.m.regs, -|word|)[ESP], word))
  {
    hide Translate, Backed, BlockPushed, WriteStack;
    var (ss, esp, n, k) := (m.regs[SS], m.regs[ESP], |data|, |word|);
    if esp >= n + k && Translate(segs, ss, (esp as int) - n - k, n + k).Some? {
      PushBelowFits(segs, m, data, o, word);
    } else {
      PushBelowFaults(segs, m, data, o, word);
    }
    BlockPushedIs(segs, m, word + data, WriteStack(segs, o.m, Moved(o.m.regs, -k)[ESP], word));
  }

  /** BlockPushed, by its two cases. */
  lemma BlockPushedIs(segs: SegTable, m: Machine, data: seq<byte>, o: Outcome)
    requires MachineOk(segs, m)
    ensures var (esp, n) := (m.regs[ESP], |data|);
      BlockPushed(segs, m, data, o) <==>
        if esp >= n && Translate(segs, m.regs[SS], (esp as int) - n, n).Some?
        then o == Outcome(Machine(m.regs[ESP := (esp as int) - n],
                                  Splice(m.mem, Translate(segs, m.regs[SS], (esp as int) - n, n).value, data)), true)
        else !o.ok
  {
    hide Translate;
  }

  lemma PushBelowFits(segs: SegTable, m: Machine, data: seq<byte>, o: Outcome, word: seq<byte>)
    requires MachineOk(segs, m) && MachineOk(segs, o.m) && BlockPushed(segs, m, data, o) && o.ok
    requires |data| > 0 && 0 < |word| <= 4 && m.regs[ESP] >= |data| + |word|
    requires Translate(segs, m.regs[SS], (m.regs[ESP] as int) - |data| - |word|, |data| + |word|).Some?
    ensures var (lo, n) := ((m.regs[ESP] as int) - |data| - |word|, |data| + |word|);
      && Translate(segs, m.regs[SS], lo, n).value + n <= |m.mem|
      && WriteStack(segs, o.m, Moved(o.m.regs, -|word|)[ESP], word)
      == Outcome(Machine(m.regs[ESP := lo], Splice(m.mem, Translate(segs, m.regs[SS], lo, n).value, word + data)), true)
  {
    hide Translate, Backed, BlockPushed;
    var (ss, n, k) := (m.regs[SS], |data|, |word|);
    var lo := (m.regs[ESP] as int) - n - k;
    BackedIsValid(segs, m.mem);
    BlockPushedIs(segs, m, data, o);
    TranslateInside(segs, ss, lo, n + k, lo, k);
    TranslateInside(segs, ss, lo, n + k, lo + k, n);
    TranslateBacked(segs, m.mem, ss, lo, n + k);
    assert o.m.regs == m.regs[ESP := lo + k] && Moved(o.m.regs, -k)[ESP] == lo;
    SpliceAdjacent(m.mem, Translate(segs, ss, lo, n + k).value, word, data);
  }

  lemma PushBelowFaults(segs: SegTable, m: Machine, data: seq<byte>, o: Outcome, word: seq<byte>)
    requires MachineOk(segs, m) && MachineOk(segs, o.m) && BlockPushed(segs, m, data, o) && o.ok
    requires |data| > 0 && 0 < |word| <= 4
    requires m.regs[ESP] < |data| + |word|
          || Translate(segs, m.regs[SS], (m.regs[ESP] as int) - |data| - |word|, |data| + |word|).None?
    ensures !WriteStack(segs, o.m, Moved(o.m.regs, -|word|)[ESP], word).ok
  {
    hide Translate, Backed, BlockPushed, WriteStack;
    var (ss, n, k) := (m.regs[SS], |data|, |word|);
    BackedIsValid(segs, m.mem);
    BlockPushedIs(segs, m, data, o);
    WriteStackNoWrap(segs, o.m, word);
    if m.regs[ESP] >= n + k {
      var lo := (m.regs[ESP] as int) - n - k;
      assert o.m.regs[ESP] - k == lo && o.m.regs[SS] == ss;
      if Translate(segs, ss, lo, k).Some? {
        TranslateJoin(segs, ss, lo, k, n);
        assert false;
      }
    }
  }

  lemma PushBelowFailure(segs: SegTable, m: Machine, data: seq<byte>, word: seq<byte>, o: Outcome)
    requires MachineOk(segs, m) && |data| > 0 && !o.ok && BlockPushed(segs, m, data, o)
    ensures BlockPushed(segs, m, word + data, o)
  {
  }

  /**
   Pushing words succeeds exactly when the stack has room for them all, and then the memory
   changes in one block just below the old stack pointer.
   */
  lemma {:induction false} PushAllEffect(segs: SegTable, m: Machine, ws: seq<u32>)
    requires MachineOk(segs, m) && ws != []
    ensures BlockPushed(segs, m, EncodeAll(ws), PushAll(segs, Outcome(m, true), ws))
  {
    hide Translate, Backed;
    var word := Encode32(ws[0]);
    if |ws| == 1 {
      assert EncodeAll(ws) == word + EncodeAll(ws[1..]) == word;
      assert PushAll(segs, Outcome(m, true), ws[1..]) == Outcome(m, true);
      PushIsBlock(segs, m, word);
    } else {
      PushAllEffect(segs, m, ws[1..]);
      var rest := PushAll(segs, Outcome(m, true), ws[1..]);
      if rest.ok {
        PushBelowBlock(segs, m, EncodeAll(ws[1..]), rest, word);
      } else {
        PushBelowFailure(segs, m, EncodeAll(ws[1..]), word, rest);
      }
    }
  }

  // ----- reading a block of words back

  /** The words ws lie at SS:offset. */
  predicate WordsAt(segs: SegTable, mem: seq<byte>, ss: u16, offset: nat, ws: seq<u32>)
    requires Backed(segs, mem)
  {
    && offset + 4 * |ws| < 0x1_0000_0000
    && Translate(segs, ss, offset, 4 * |ws|).Some?
    && var a := Translate(segs, ss, offset, 4 * |ws|).value;
       mem[a..a + 4 * |ws|] == EncodeAll(ws)
  }

  lemma PeekWordsAt(segs: SegTable, m: Machine, offset: nat, ws: seq<u32>, k: nat)
    requires MachineOk(segs, m) && WordsAt(segs, m.mem, m.regs[SS], offset, ws) && k < |ws|
    ensures PeekStack(segs, m, offset + 4 * k) == Some(ws[k])
  {
    hide Translate, EncodeAll, Decode32, Encode32;
    var n := 4 * |ws|;
    var a := Translate(segs, m.regs[SS], offset, n).value;
    TranslateInside(segs, m.regs[SS], offset, n, offset + 4 * k, 4);
    TranslateBacked(segs, m.mem, m.regs[SS], offset, n);
    EncodeAllAt(ws, k);
    SliceOfSlice(m.mem, a, a + n, 4 * k, 4 * k + 4);
    DecodeEncode32(ws[k]);
  }

  /** A suffix of a block is a block. */
  lemma WordsAtTail(segs: SegTable, mem: seq<byte>, ss: u16, offset: nat, ws: seq<u32>)
    requires Backed(segs, mem) && WordsAt(segs, mem, ss, offset, ws) && |ws| > 1
    ensures WordsAt(segs, mem, ss, offset + 4, ws[1..])
  {
    var n := 4 * |ws|;
    var a := Translate(segs, ss, offset, n).value;
    TranslateInside(segs, ss, offset, n, offset + 4, n - 4);
    assert EncodeAll(ws)[4..] == EncodeAll(ws[1..]);
    assert mem[a + 4..a + n] == mem[a..a + n][4..];
  }

  /** ESP apart, `now` agrees with r on the registers from lo up to hi and with `rest` on the others. */
  predicate Merged(now: Regs, r: Regs, rest: Regs, lo: int, hi: int) {
    forall j :: 0 <= j < 16 && j != ESP ==> now[j] == if lo <= j < hi then r[j] else rest[j]
  }

  lemma MergedSame(now: Regs, r: Regs)
    requires Merged(now, r, r, 0, 0)
    ensures now == r[ESP := now[ESP]]
  {
  }

  lemma AssignMerges(now: Regs, r: Regs, k: nat, esp: u32)
    requires k < 15
    ensures Merged(Assign(now[ESP := esp], k, r[k]), r, now, k, k + 1)
    ensures Assign(now[ESP := esp], k, r[k])[ESP] == esp
  {
  }

  lemma PopStepAt(segs: SegTable, m: Machine, offset: nat, r: Regs, k: nat)
    requires MachineOk(segs, m) && k < 15 && offset + 60 < 0x1_0000_0000
    requires WordsAt(segs, m.mem, m.regs[SS], offset, ContextWords(r)) && m.regs[ESP] == offset + 4 * k
    ensures var o := PopStep(segs, Outcome(m, true), k);
      && o.ok && o.m.mem == m.mem && o.m.regs[ESP] == offset + 4 * (k + 1) && Merged(o.m.regs, r, m.regs, k, k + 1)
  {
    hide WordsAt, PeekStack, Backed, Assign, Merged;
    PeekWordsAt(segs, m, offset, ContextWords(r), k);
    AssignMerges(m.regs, r, k, offset + 4 * k + 4);
  }

  /** The registers of r, with the stack pointer and FS of `now`: FS is never saved. */
  function Restored(r: Regs, esp: u32, now: Regs): Regs { r[ESP := esp][FS := now[FS]] }

  lemma {:induction false} RestoreFromWords(segs: SegTable, m: Machine, offset: nat, r: Regs, k: nat)
    requires MachineOk(segs, m) && k <= 15 && m.regs[SS] == r[SS] && offset + 60 < 0x1_0000_0000
    requires WordsAt(segs, m.mem, r[SS], offset, ContextWords(r)) && m.regs[ESP] == offset + 4 * k
    ensures var o := RestoreFrom(segs, Outcome(m, true), k);
      && o.ok && o.m.mem == m.mem && o.m.regs[ESP] == offset + 60 && Merged(o.m.regs, r, m.regs, k, 15)
    decreases 15 - k
  {
    hide WordsAt, PopStep, Backed;
    if k < 15 {
      PopStepAt(segs, m, offset, r, k);
      var o := PopStep(segs, Outcome(m, true), k);
      RestoreFromWords(segs, o.m, offset, r, k + 1);
    }
  }

  /** Popping a saved context gives back every register that was pushed. */
  lemma RestoreEffect(segs: SegTable, m: Machine, r: Regs)
    requires MachineOk(segs, m) && m.regs[SS] == r[SS]
    requires WordsAt(segs, m.mem, r[SS], m.regs[ESP], ContextWords(r))
    ensures RestoreFrom(segs, Outcome(m, true), 0)
         == Outcome(m.(regs := Restored(r, m.regs[ESP] + 60, m.regs)), true)
  {
    hide Backed, RestoreFrom;
    RestoreFromWords(segs, m, m.regs[ESP], r, 0);
    assert RestoreFrom(segs, Outcome(m, true), 0).m.regs == Restored(r, m.regs[ESP] + 60, m.regs);
  }

  // ----- the object

  class GuestContext {
    var regs: Regs
    var mem: seq<byte>
    const segs: SegTable

    function State(): Machine
      reads this
    {
      Machine(regs, mem)
    }

    predicate Valid()
      reads this
    {
      Backed(segs, mem)
    }

    constructor (regs: Regs, mem: seq<byte>, segs: SegTable)
      requires Backed(segs, mem)
      ensures Valid() && this.regs == regs && this.mem == mem && this.segs == segs
    {
      this.regs, this.mem, this.segs := regs, mem, segs;
    }

    method WriteData(offset: u32, data: seq<byte>) returns (ok: bool)
      requires Valid()
      modifies this`mem
      ensures Valid() && ok == Translate(segs, regs[SS], offset, |data|).Some?
      ensures mem == if ok then Splice(old(mem), Translate(segs, regs[SS], offset, |data|).value, data) else old(mem)
    {
      var a := Translate(segs, regs[SS], offset, |data|);
      ok := a.Some?;
      if ok {
        mem := Splice(mem, a.value, data);
      }
    }

    /** `sofar` is false once an earlier access faulted. */
    method PushStack(value: u32, sofar: bool) returns (ok: bool)
      requires Valid()
      modifies this
      ensures Valid() && Outcome(State(), ok) == Push(segs, Outcome(old(State()), sofar), value)
      ensures regs == old(regs)[ESP := regs[ESP]]
    {
      if !sofar {
        return false;
      }
      regs := Moved(regs, -4);
      ok := WriteData(regs[ESP], Encode32(value));
    }

    method PushStack16(value: u16, sofar: bool) returns (ok: bool)
      requires Valid()
      modifies this
      ensures Valid() && Outcome(State(), ok) == Push16(segs, Outcome(old(State()), sofar), value)
      ensures regs == old(regs)[ESP := regs[ESP]]
    {
      if !sofar {
        return false;
      }
      regs := Moved(regs, -2);
      ok := WriteData(regs[ESP], Encode16(value));
    }

    method PopStack() returns (ok: bool, value: u32)
      requires Valid()
      modifies this`regs
      ensures Valid()
      ensures PeekStack(segs, old(State()), old(regs[ESP])) == if ok then Some(value) else None
      ensures regs == if ok then Moved(old(regs), 4) else old(regs)
    {
      var a := Translate(segs, regs[SS], regs[ESP], 4);
      if a.None? {
        return false, 0;
      }
      value := Decode32(mem[a.value..a.value + 4]);
      regs := Moved(regs, 4);
      ok := true;
    }

    method PopStack16() returns (ok: bool, value: u16)
      requires Valid()
      modifies this`regs
      ensures Valid()
      ensures PeekStack16(segs, old(State()), old(regs[ESP])) == if ok then Some(value) else None
      ensures regs == if ok then Moved(old(regs), 2) else old(regs)
    {
      var a := Translate(segs, regs[SS], regs[ESP], 2);
      if a.None? {
        return false, 0;
      }
      value := Decode16(mem[a.value..a.value + 2]);
      regs := Moved(regs, 2);
      ok := true;
    }

    /** The push of the k-th register of r, after those above it. */
    method PushRegister(k: nat, esp: u32, sofar: bool, ghost from: Outcome, ghost r: Regs) returns (ok: bool)
      requires Valid() && MachineOk(segs, from.m) && k < 15 && esp == r[ESP]
      requires Merged(regs, r, r, 0, 0)
      requires Outcome(State(), sofar) == PushAll(segs, from, r[k + 1..15])
      modifies this
      ensures Valid() && Outcome(State(), ok) == PushAll(segs, from, r[k..15])
      ensures Merged(regs, r, r, 0, 0)
    {
      assert r[k..15][1..] == r[k + 1..15];
      ok := PushStack(if k == ESP then esp else regs[k], sofar);
    }

    /** The pushad half of save_context. */
    method PushGeneral(ghost from: Outcome, ghost r: Regs) returns (ok: bool)
      requires Valid() && from == Outcome(State(), true) && r == regs
      modifies this
      ensures Valid() && Outcome(State(), ok) == PushAll(segs, from, r[EDI..15])
      ensures Merged(regs, r, r, 0, 0)
    {
      hide PushAll, Backed, Merged;
      var esp := regs[ESP];
      PushNone(segs, from, r);
      ok := PushRegister(EAX, esp, true, from, r);
      ok := PushRegister(ECX, esp, ok, from, r);
      ok := PushRegister(EDX, esp, ok, from, r);
      ok := PushRegister(EBX, esp, ok, from, r);
      ok := PushRegister(ESP, esp, ok, from, r);
      ok := PushRegister(EBP, esp, ok, from, r);
      ok := PushRegister(ESI, esp, ok, from, r);
      ok := PushRegister(EDI, esp, ok, from, r);
    }

    method SaveContext() returns (ok: bool)
      requires Valid()
      modifies this
      ensures Valid()
      ensures Outcome(State(), ok) == PushAll(segs, Outcome(old(State()), true), ContextWords(old(regs)))
      ensures regs == old(regs)[ESP := regs[ESP]]
    {
      hide PushAll, Backed, Merged;
      ghost var r, from := regs, Outcome(State(), true);
      var esp := regs[ESP];
      ok := PushGeneral(from, r);
      ok := PushRegister(EFLAGS, esp, ok, from, r);
      ok := PushRegister(CS, esp, ok, from, r);
      ok := PushRegister(EIP, esp, ok, from, r);
      ok := PushRegister(DS, esp, ok, from, r);
      ok := PushRegister(ES, esp, ok, from, r);
      ok := PushRegister(GS, esp, ok, from, r);
      ok := PushRegister(SS, esp, ok, from, r);
      assert r[0..15] == ContextWords(r);
      assert regs == r[ESP := regs[ESP]] by { MergedSame(regs, r); }
    }

    /** The k-th pop of restore_context, into the register it belongs to. */
    method PopInto(k: nat, sofar: bool) returns (ok: bool)
      requires Valid() && k < 15
      modifies this
      ensures Valid() && Outcome(State(), ok) == PopStep(segs, Outcome(old(State()), sofar), k)
    {
      if !sofar {
        return false;
      }
      var value;
      ok, value := PopStack();
      if ok {
        regs := Assign(regs, k, value);
      }
    }

    method RestoreContext() returns (ok: bool)
      requires Valid()
      modifies this
      ensures Valid() && Outcome(State(), ok) == RestoreFrom(segs, Outcome(old(State()), true), 0)
    {
      ghost var all := RestoreFrom(segs, Outcome(State(), true), 0);
      ok := PopInto(SS, true);
      ok := PopInto(GS, ok);
      ok := PopInto(ES, ok);
      ok := PopInto(DS, ok);
      assert all == RestoreFrom(segs, Outcome(State(), ok), EIP);
      ok := PopInto(EIP, ok);
      ok := PopInto(CS, ok);
      ok := PopInto(EFLAGS, ok);
      assert all == RestoreFrom(segs, Outcome(State(), ok), EDI);
      ok := PopInto(EDI, ok);
      ok := PopInto(ESI, ok);
      ok := PopInto(EBP, ok);
      ok := PopInto(ESP, ok);  // thrown away
      assert all == RestoreFrom(segs, Outcome(State(), ok), EBX);
      ok := PopInto(EBX, ok);
      ok := PopInto(EDX, ok);
      ok := PopInto(ECX, ok);
      ok := PopInto(EAX, ok);
    }
  }
}
