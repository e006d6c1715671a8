/**
 Emulated signal sets: a 32-bit word with bit signo - 1 for each signal (src/qnx_sigset.h).
 The word is kept as its 32 bits, lowest first; ToWord gives the number that is stored in
 guest memory.
 */
module Sigsets {
  import opened Words

  const QSIGMIN: int := 1
  const QSIGMAX: int := 32

  type Signo = s: int | 1 <= s <= 32 witness 1

  type Sigset = v: seq<bool> | |v| == 32 witness Repeat(false, 32)

  const EMPTY: Sigset := Repeat(false, 32)

  function Repeat(x: bool, n: nat): (r: seq<bool>)
    ensures |r| == n && forall i :: 0 <= i < n ==> r[i] == x
  {
    if n == 0 then [] else [x] + Repeat(x, n - 1)
  }

  // ----- the word operations, bit by bit

  function Or(a: seq<bool>, b: seq<bool>): (r: seq<bool>)
    requires |a| == |b|
    ensures |r| == |a| && forall i :: 0 <= i < |a| ==> r[i] == (a[i] || b[i])
  {
    if a == [] then [] else [a[0] || b[0]] + Or(a[1..], b[1..])
  }

  function And(a: seq<bool>, b: seq<bool>): (r: seq<bool>)
    requires |a| == |b|
    ensures |r| == |a| && forall i :: 0 <= i < |a| ==> r[i] == (a[i] && b[i])
  {
    if a == [] then [] else [a[0] && b[0]] + And(a[1..], b[1..])
  }

  function Not(a: seq<bool>): (r: seq<bool>)
    ensures |r| == |a| && forall i :: 0 <= i < |a| ==> r[i] == !a[i]
  {
    if a == [] then [] else [!a[0]] + Not(a[1..])
  }

  /** get_qnx_mask */
  function Mask(s: Signo): Sigset { EMPTY[s - 1 := true] }

  function SetSig(v: Sigset, s: Signo): Sigset { Or(v, Mask(s)) }

  function ClearSig(v: Sigset, s: Signo): Sigset { And(v, Not(Mask(s))) }

  predicate Has(v: Sigset, s: Signo) { And(v, Mask(s)) != EMPTY }

  function Modify(v: Sigset, mask: Sigset, bits: Sigset): Sigset { Or(And(v, Not(mask)), And(bits, mask)) }

  /** Pending and not masked, as signal_tail and should_preempt compute it. */
  function Active(pend: Sigset, mask: Sigset): Sigset { Modify(pend, mask, EMPTY) }

  // ----- what they mean for the set of signals

  predicate IsSet(v: Sigset, s: Signo) { v[s - 1] }

  function Members(v: Sigset): set<Signo> { set s: Signo | 1 <= s <= 32 && IsSet(v, s) }

  lemma HasIsMember(v: Sigset, s: Signo)
    ensures Has(v, s) <==> s in Members(v)
  {
  }

  lemma MembersOfOperations(v: Sigset, w: Sigset, m: Sigset, s: Signo)
    ensures Members(Or(v, w)) == Members(v) + Members(w)
    ensures Members(SetSig(v, s)) == Members(v) + {s}
    ensures Members(ClearSig(v, s)) == Members(v) - {s}
    ensures Members(Modify(v, m, w)) == Members(v) - Members(m) + Members(w) * Members(m)
    ensures Members(Active(v, m)) == Members(v) - Members(m)
  {
    hide Or, And, Not, Repeat;
  }

  /** The set determines the word. */
  lemma MembersInjective(v: Sigset, w: Sigset)
    requires Members(v) == Members(w)
    ensures v == w
  {
    forall i | 0 <= i < 32 ensures v[i] == w[i] {
      assert IsSet(v, i + 1) <==> IsSet(w, i + 1) by { assert i + 1 in Members(v) <==> i + 1 in Members(w); }
    }
  }

  // ----- find_first

  /** The least member, or -1. */
  function FirstFrom(v: Sigset, s: int): int
    requires 1 <= s <= 33
    decreases 33 - s
  {
    if s == 33 then -1 else if Has(v, s) then s else FirstFrom(v, s + 1)
  }

  ghost predicate IsLeast(s: int, members: set<Signo>) {
    s in members && forall t :: t in members ==> s <= t
  }

  lemma {:induction false} FirstFromLeast(v: Sigset, s: int)
    requires 1 <= s <= 33
    requires forall t :: t in Members(v) ==> s <= t
    ensures v == EMPTY <==> FirstFrom(v, s) == -1
    ensures v != EMPTY ==> 1 <= FirstFrom(v, s) <= 32 && IsLeast(FirstFrom(v, s), Members(v))
    decreases 33 - s
  {
    if s == 33 {
      assert Members(v) == Members(EMPTY);
      MembersInjective(v, EMPTY);
    } else {
      HasIsMember(v, s);
      if Has(v, s) {
        assert IsSet(v, s);
      } else {
        FirstFromLeast(v, s + 1);
      }
    }
  }

  /** find_first: the least member, or -1 for the empty set. */
  method FindFirst(v: Sigset) returns (r: int)
    ensures r == FirstFrom(v, 1)
    ensures v == EMPTY ==> r == -1
    ensures v != EMPTY ==> IsLeast(r, Members(v))
  {
    hide Has, Members, IsLeast;
    FirstFromLeast(v, 1);
    r := QSIGMIN;
    while r <= QSIGMAX
      invariant 1 <= r <= 33
      invariant FirstFrom(v, 1) == FirstFrom(v, r)
    {
      if Has(v, r) {
        return;
      }
      r := r + 1;
    }
    r := -1;
  }

  // ----- the number

  function Pow2(n: nat): nat { if n == 0 then 1 else 2 * Pow2(n - 1) }

  function Value(v: seq<bool>): (w: nat)
    ensures w < Pow2(|v|)
  {
    if v == [] then 0 else (if v[0] then 1 else 0) + 2 * Value(v[1..])
  }

  function BitsOf(w: nat, n: nat): (v: seq<bool>)
    ensures |v| == n
  {
    if n == 0 then [] else [w % 2 == 1] + BitsOf(w / 2, n - 1)
  }

  lemma {:induction false} BitsOfValue(v: seq<bool>)
    ensures BitsOf(Value(v), |v|) == v
  {
    if v != [] {
      BitsOfValue(v[1..]);
    }
  }

  function ToWord(v: Sigset): u32 {
    assert Pow2(8) == 0x100 && Pow2(16) == 0x1_0000 && Pow2(24) == 0x100_0000 && Pow2(32) == 0x1_0000_0000;
    Value(v)
  }

  function FromWord(w: u32): Sigset { BitsOf(w, 32) }

  lemma HalfThenDivide(w: nat, m: nat)
    requires m > 0
    ensures w / 2 / m == w / (2 * m)
  {
    var (q, r) := (w / 2 / m, w / 2 % m);
    assert w / 2 == q * m + r;
    assert w == (2 * m) * q + (2 * r + w % 2);
    QuotientIs(w, 2 * m, q, 2 * r + w % 2);
  }

  lemma QuotientIs(w: nat, m: nat, q: nat, r: nat)
    requires w == m * q + r && r < m
    ensures w / m == q
  {
    var p := w / m;
    assert w == m * p + w % m;
    assert p < q ==> m * (p + 1) <= m * q;
    assert q < p ==> m * (q + 1) <= m * p;
  }

  lemma {:induction false} BitAt(w: nat, n: nat, k: nat)
    requires k < n
    ensures Pow2(k) > 0 && (BitsOf(w, n)[k] <==> w / Pow2(k) % 2 == 1)
  {
    if k > 0 {
      BitAt(w / 2, n - 1, k - 1);
      HalfThenDivide(w, Pow2(k - 1));
    }
  }

  /** Signal s is a member exactly when bit s - 1 of the number is set, both ways. */
  lemma WordBits(w: u32, v: Sigset, s: Signo)
    ensures Pow2(s - 1) > 0
    ensures s in Members(FromWord(w)) <==> w / Pow2(s - 1) % 2 == 1
    ensures s in Members(v) <==> ToWord(v) / Pow2(s - 1) % 2 == 1
  {
    hide Members, ToWord, FromWord, Pow2;
    BitsAre(w);
    BitsAre(ToWord(v));
    BitAt(w, 32, s - 1);
    BitAt(ToWord(v), 32, s - 1);
    WordRoundTrip(v);
    InMembers(FromWord(w), s);
    InMembers(v, s);
  }

  lemma BitsAre(w: u32)
    ensures FromWord(w) == BitsOf(w, 32)
  {
  }

  lemma InMembers(v: Sigset, s: Signo)
    ensures s in Members(v) <==> v[s - 1]
  {
    assert IsSet(v, s) <==> v[s - 1];
  }

  lemma WordRoundTrip(v: Sigset)
    ensures FromWord(ToWord(v)) == v
  {
    BitsOfValue(v);
  }
}
