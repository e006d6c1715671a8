/** Machine words, their little-endian byte form, and flat byte memory. */
module Words {
  datatype Option<+T> = None | Some(value: T)

  /** Whether a program has 16-bit or 32-bit code. */
  datatype Bitness = B16 | B32

  predicate Ascending(s: seq<int>) { forall i, j :: 0 <= i < j < |s| ==> s[i] < s[j] }

  /** Division and remainder of C++: towards zero. */
  function Quotient(a: int, b: int): int
    requires b > 0
  {
    if a >= 0 then a / b else -((-a) / b)
  }

  function Remainder(a: int, b: int): int
    requires b > 0
  {
    if a >= 0 then a % b else -((-a) % b)
  }

  type byte = x: int | 0 <= x < 0x100
  type u16 = x: int | 0 <= x < 0x1_0000
  type u32 = x: int | 0 <= x < 0x1_0000_0000

  /** uint32_t arithmetic: the result reduced modulo 2^32. */
  function Wrap32(x: int): u32 { x % 0x1_0000_0000 }

  lemma WrapSmall(x: int)
    ensures 0 <= x < 0x1_0000_0000 ==> Wrap32(x) as int == x
  {
  }

  lemma WrapSum(x: int, y: int)
    ensures Wrap32((Wrap32(x) as int) + y) == Wrap32(x + y)
  {
  }

  /** Assignment of a 32-bit value to a 16-bit register. */
  function Low16(x: u32): u16 { x % 0x1_0000 }

  function Encode16(v: u16): (s: seq<byte>)
    ensures |s| == 2
  {
    [v % 0x100, v / 0x100]
  }

  function Decode16(s: seq<byte>): u16
    requires |s| == 2
  {
    (s[0] as int) + 0x100 * (s[1] as int)
  }

  function Encode32(v: u32): (s: seq<byte>)
    ensures |s| == 4
  {
    [v % 0x100, v / 0x100 % 0x100, v / 0x1_0000 % 0x100, v / 0x100_0000]
  }

  function Decode32(s: seq<byte>): u32
    requires |s| == 4
  {
    (s[0] as int) + 0x100 * (s[1] as int) + 0x1_0000 * (s[2] as int) + 0x100_0000 * (s[3] as int)
  }

  lemma DecodeEncode32(v: u32)
    ensures Decode32(Encode32(v)) == v
  {
    assert v / 0x1_0000 == v / 0x100 / 0x100;
    assert v / 0x100_0000 == v / 0x1_0000 / 0x100;
  }

  /** Words lie in memory with their low half, and half words with their low byte, in front. */
  lemma LittleEndian(v: u32, h: u16)
    ensures Encode32(v) == Encode16(v % 0x1_0000) + Encode16(v / 0x1_0000)
    ensures Encode16(h)[0] == h % 0x100 && Decode16(Encode16(h)) == h
  {
    HalfBytes(v % 0x1_0000, v / 0x1_0000);
  }

  lemma HalfBytes(lo: nat, hi: nat)
    requires lo < 0x1_0000
    ensures var v := lo + 0x1_0000 * hi;
      v % 0x100 == lo % 0x100 && v / 0x100 % 0x100 == lo / 0x100 && v / 0x1_0000 == hi && v / 0x100_0000 == hi / 0x100
  {
    var (a, b, c, d) := (lo / 0x100, lo % 0x100, hi / 0x100, hi % 0x100);
    var v := lo + 0x1_0000 * hi;
    assert v == b + 0x100 * (a + 0x100 * hi);
    assert v / 0x100 == a + 0x100 * hi;
    assert v == lo + 0x1_0000 * d + 0x100_0000 * c;
  }

  /** Words laid out in ascending addresses. */
  function EncodeAll(ws: seq<u32>): (s: seq<byte>)
    ensures |s| == 4 * |ws|
  {
    if ws == [] then [] else Encode32(ws[0]) + EncodeAll(ws[1..])
  }

  lemma {:induction false} EncodeAllAt(ws: seq<u32>, k: nat)
    requires k < |ws|
    ensures EncodeAll(ws)[4 * k..4 * k + 4] == Encode32(ws[k])
  {
    var s := EncodeAll(ws);
    if k == 0 {
      assert s[0..4] == Encode32(ws[0]);
    } else {
      EncodeAllAt(ws[1..], k - 1);
      assert s[4..] == EncodeAll(ws[1..]);
      assert s[4 * k..4 * k + 4] == s[4..][4 * (k - 1)..4 * (k - 1) + 4];
    }
  }

  /** memcpy of `data` to address `a`. */
  function Splice(mem: seq<byte>, a: nat, data: seq<byte>): (r: seq<byte>)
    requires a + |data| <= |mem|
    ensures |r| == |mem|
    ensures forall i :: 0 <= i < |mem| ==> r[i] == if a <= i < a + |data| then data[i - a] else mem[i]
  {
    mem[..a] + data + mem[a + |data|..]
  }

  lemma SpliceRead(mem: seq<byte>, a: nat, data: seq<byte>)
    requires a + |data| <= |mem|
    ensures Splice(mem, a, data)[a..a + |data|] == data
  {
  }

  lemma SliceOfSlice(s: seq<byte>, a: nat, b: nat, i: nat, j: nat)
    requires a <= b <= |s| && i <= j <= b - a
    ensures s[a..b][i..j] == s[a + i..a + j]
  {
    assert forall k :: 0 <= k < j - i ==> s[a..b][i..j][k] == s[a + i..a + j][k];
  }

  /** Two adjacent writes are one. */
  lemma SpliceAdjacent(mem: seq<byte>, a: nat, lo: seq<byte>, hi: seq<byte>)
    requires a + |lo| + |hi| <= |mem|
    ensures Splice(Splice(mem, a + |lo|, hi), a, lo) == Splice(mem, a, lo + hi)
  {
  }
}
