/**
 Scatter/gather messages: a table of (selector, offset, length) parts, seen through an iterator as
 one flat string of byte locations (src/msg.cpp, src/msg.h).
 */
module Messages {
  import opened Words
  import opened Segments

  datatype Part = Part(seg: u16, off: u32, len: u32)

  /** One byte of guest memory as the guest names it. Offsets are 32-bit and wrap around. */
  datatype Loc = Loc(seg: u16, off: u32)

  function PartLocs(p: Part): (s: seq<Loc>)
    ensures |s| == p.len
  {
    seq(p.len, j => Loc(p.seg, Wrap32((p.off as int) + j)))
  }

  /** The message as one string of locations. */
  function Flat(parts: seq<Part>): seq<Loc> {
    if parts == [] then [] else PartLocs(parts[0]) + Flat(parts[1..])
  }

  lemma {:induction false} FlatAppend(a: seq<Part>, b: seq<Part>)
    ensures Flat(a + b) == Flat(a) + Flat(b)
  {
    hide PartLocs, Flat;
    if a == [] {
      assert a + b == b;
      FlatNone();
    } else {
      var (p, rest) := (a[0], a[1..]);
      assert a == [p] + rest && a + b == [p] + (rest + b);
      FlatAppend(rest, b);
      FlatCons(p, rest);
      FlatCons(p, rest + b);
    }
  }

  lemma FlatNone()
    ensures Flat([]) == []
  {
  }

  lemma FlatCons(p: Part, rest: seq<Part>)
    ensures Flat([p] + rest) == PartLocs(p) + Flat(rest)
  {
  }

  /** Where the i-th part starts in the flat string. */
  function Start(parts: seq<Part>, i: nat): nat
    requires i <= |parts|
  {
    |Flat(parts[..i])|
  }

  lemma FlatAt(parts: seq<Part>, i: nat)
    requires i < |parts|
    ensures Start(parts, i + 1) == Start(parts, i) + parts[i].len <= |Flat(parts)|
    ensures Flat(parts)[Start(parts, i)..Start(parts, i + 1)] == PartLocs(parts[i])
  {
    hide PartLocs, Flat;
    var (a, b, c) := (parts[..i], [parts[i]], parts[i + 1..]);
    assert parts[..i + 1] == a + b;
    assert parts == (a + b) + c;
    FlatAppend(a, b);
    FlatAppend(a + b, c);
    assert b == b + [];
    FlatCons(parts[i], []);
    FlatNone();
  }

  /** The n locations at `pos` lie in the i-th part, and reach to its end unless n is all that was asked for. */
  predicate EndsIn(parts: seq<Part>, i: nat, pos: nat, n: nat, size: nat)
    requires i < |parts|
  {
    && Start(parts, i) <= pos < pos + n <= Start(parts, i + 1) && n <= size
    && (n == size || pos + n == Start(parts, i + 1))
  }

  lemma {:induction false} StartMonotone(parts: seq<Part>, i: nat, j: nat)
    requires i <= j <= |parts|
    ensures Start(parts, i) <= Start(parts, j)
    decreases j - i
  {
    if i < j {
      StartMonotone(parts, i, j - 1);
      FlatAt(parts, j - 1);
    }
  }

  lemma StartEnd(parts: seq<Part>)
    ensures Start(parts, 0) == 0 && Start(parts, |parts|) == |Flat(parts)|
  {
    assert parts[..|parts|] == parts;
  }

  // ----- locations in memory

  /** The linear address of a location, or None when touching it faults. */
  function Addr(segs: SegTable, l: Loc): Option<nat> { Translate(segs, l.seg, l.off, 1) }

  predicate AllOk(segs: SegTable, locs: seq<Loc>) {
    forall k :: 0 <= k < |locs| ==> Addr(segs, locs[k]).Some?
  }

  /** What a string of locations holds. */
  function Held(segs: SegTable, mem: seq<byte>, locs: seq<Loc>): (s: seq<byte>)
    requires Backed(segs, mem) && AllOk(segs, locs)
    ensures |s| == |locs|
  {
    seq(|locs|, k requires 0 <= k < |locs| =>
      TranslateBacked(segs, mem, locs[k].seg, locs[k].off, 1);
      mem[Addr(segs, locs[k]).value])
  }

  lemma AddrIsMapped(segs: SegTable, l: Loc)
    requires ValidTable(segs)
    ensures Addr(segs, l) == if SelectorId(l.seg) in segs && segs[SelectorId(l.seg)].Mapped(l.off)
                             then Some(segs[SelectorId(l.seg)].location + l.off) else None
    ensures Addr(segs, l).Some? ==> l.off < 0x8000_0000
  {
  }

  lemma PartLocAt(p: Part, k: nat)
    requires k < p.len
    ensures PartLocs(p)[k] == Loc(p.seg, Wrap32((p.off as int) + k))
  {
  }

  lemma RangeOkIsEach(segs: SegTable, p: Part)
    requires ValidTable(segs) && p.len > 0 && Translate(segs, p.seg, p.off, p.len).Some?
    ensures forall k :: 0 <= k < p.len ==> Addr(segs, PartLocs(p)[k]) == Some(Translate(segs, p.seg, p.off, p.len).value + k)
  {
    hide Translate, Seg.CheckBounds, PartLocs;
    forall k | 0 <= k < p.len
      ensures Addr(segs, PartLocs(p)[k]) == Some(Translate(segs, p.seg, p.off, p.len).value + k)
    {
      TranslateSmall(segs, p);
      PartLocAt(p, k);
      TranslateInside(segs, p.seg, p.off, p.len, p.off + k, 1);
    }
  }

  lemma TranslateSmall(segs: SegTable, p: Part)
    requires ValidTable(segs) && Translate(segs, p.seg, p.off, p.len).Some?
    ensures p.off + p.len <= 0x8000_0000
  {
  }

  /** A range of good locations does not wrap around: nothing is mapped at the top of the offset space. */
  lemma {:induction false} EachDoesNotWrap(segs: SegTable, p: Part, k: nat)
    requires ValidTable(segs) && k < p.len && AllOk(segs, PartLocs(p))
    ensures p.off + k < 0x8000_0000
    ensures SelectorId(p.seg) in segs && segs[SelectorId(p.seg)].Mapped(p.off + k)
  {
    hide Seg.Mapped, Translate, ValidTable, Addr, PartLocs;
    if k > 0 {
      EachDoesNotWrap(segs, p, k - 1);
    }
    assert Addr(segs, PartLocs(p)[k]).Some?;
    PartLocAt(p, k);
    AddrIsMapped(segs, PartLocs(p)[k]);
  }

  lemma EachOkIsRange(segs: SegTable, p: Part)
    requires ValidTable(segs) && p.len > 0 && AllOk(segs, PartLocs(p))
    ensures Translate(segs, p.seg, p.off, p.len).Some?
  {
    hide Seg.CheckBounds, AllOk;
    EachDoesNotWrap(segs, p, 0);
    var s := segs[SelectorId(p.seg)];
    forall b: nat | p.off <= b < p.off + p.len ensures s.Mapped(b) {
      EachDoesNotWrap(segs, p, b - p.off);
    }
    CheckBoundsExact(s, p.off, p.len);
  }

  /** A contiguous range translates as a whole exactly when each of its bytes does. */
  lemma RangeOk(segs: SegTable, p: Part)
    requires ValidTable(segs) && p.len > 0
    ensures Translate(segs, p.seg, p.off, p.len).Some? <==> AllOk(segs, PartLocs(p))
  {
    hide Translate, Addr;
    if Translate(segs, p.seg, p.off, p.len).Some? {
      RangeOkIsEach(segs, p);
    }
    if AllOk(segs, PartLocs(p)) {
      EachOkIsRange(segs, p);
    }
  }

  lemma BytesOfRange(segs: SegTable, mem: seq<byte>, p: Part)
    requires Backed(segs, mem) && p.len > 0 && Translate(segs, p.seg, p.off, p.len).Some?
    ensures var a := Translate(segs, p.seg, p.off, p.len).value;
      a + p.len <= |mem| && AllOk(segs, PartLocs(p)) && Held(segs, mem, PartLocs(p)) == mem[a..a + p.len]
  {
    hide Translate, Backed;
    assert ValidTable(segs) by { BackedIsValid(segs, mem); }
    RangeOkIsEach(segs, p);
    TranslateBacked(segs, mem, p.seg, p.off, p.len);
  }

  lemma BytesAppend(segs: SegTable, mem: seq<byte>, a: seq<Loc>, b: seq<Loc>)
    requires Backed(segs, mem) && AllOk(segs, a) && AllOk(segs, b)
    ensures AllOk(segs, a + b) && Held(segs, mem, a + b) == Held(segs, mem, a) + Held(segs, mem, b)
  {
  }

  // ----- the part table

  /** 32-bit messages use the table in place in guest memory, 16-bit ones a translated copy. */
  datatype Table = InPlace(addr: nat, count: nat) | Copied(parts: seq<Part>)
  {
    function Count(): nat { match this case InPlace(_, n) => n case Copied(ps) => |ps| }

    predicate Inside(mem: seq<byte>) { InPlace? ==> addr + 12 * count <= |mem| }

    /** The i-th entry as it reads now. */
    function Entry(mem: seq<byte>, i: nat): Part
      requires Inside(mem) && i < Count()
    {
      match this
      case InPlace(a, _) =>
        var e := a + 12 * i;
        Part(Decode16(mem[e + 4..e + 6]), Decode32(mem[e..e + 4]), Decode32(mem[e + 8..e + 12]))
      case Copied(ps) => ps[i]
    }

    function Parts(mem: seq<byte>): (ps: seq<Part>)
      requires Inside(mem)
      ensures |ps| == Count() && forall i :: 0 <= i < Count() ==> ps[i] == Entry(mem, i)
    {
      seq(Count(), i requires 0 <= i < Count() => Entry(mem, i))
    }

    predicate Covers(a: nat) { InPlace? && addr <= a < addr + 12 * count }
  }

  /** An in-place table reads the same while the memory it lies in does not change. */
  lemma TableUnchanged(t: Table, mem: seq<byte>, mem': seq<byte>)
    requires t.Inside(mem) && |mem'| == |mem| && forall a :: 0 <= a < |mem| && t.Covers(a) ==> mem'[a] == mem[a]
    ensures t.Parts(mem') == t.Parts(mem)
  {
  }

  /** The i-th of the 16-bit entries at `a`. */
  function Entry16(mem: seq<byte>, a: nat, i: nat): Part
    requires a + 8 * i + 8 <= |mem|
  {
    var e := a + 8 * i;
    Part(Decode16(mem[e + 4..e + 6]), Decode16(mem[e..e + 2]), Decode16(mem[e + 6..e + 8]))
  }

  // ----- what the bytes of a table mean

  /** The entry of a part as a 32-bit program writes it: offset, selector, an unused word, length. */
  function PartBytes(p: Part, unused: u16): (b: seq<byte>)
    ensures |b| == 12
  {
    Encode32(p.off) + Encode16(p.seg) + Encode16(unused) + Encode32(p.len)
  }

  /** A part that a 16-bit program can describe. */
  predicate Small(p: Part) { p.off < 0x1_0000 && p.len < 0x1_0000 }

  /** The entry of a part as a 16-bit program writes it: offset, an unused word, selector, length. */
  function PartBytes16(p: Part, unused: u16): (b: seq<byte>)
    requires Small(p)
    ensures |b| == 8
  {
    Encode16(p.off) + Encode16(unused) + Encode16(p.seg) + Encode16(p.len)
  }

  /** Memory holds the entries of the parts from address `a` on; the unused words may be anything. */
  predicate TableAt(mem: seq<byte>, a: nat, ps: seq<Part>, unused: seq<u16>) {
    && |unused| == |ps| && a + 12 * |ps| <= |mem|
    && forall i :: 0 <= i < |ps| ==> mem[a + 12 * i..a + 12 * i + 12] == PartBytes(ps[i], unused[i])
  }

  predicate TableAt16(mem: seq<byte>, a: nat, ps: seq<Part>, unused: seq<u16>) {
    && |unused| == |ps| && a + 8 * |ps| <= |mem|
    && forall i :: 0 <= i < |ps| ==> Small(ps[i]) && mem[a + 8 * i..a + 8 * i + 8] == PartBytes16(ps[i], unused[i])
  }

  lemma PartBytesAre(p: Part, unused: u16)
    ensures var b := PartBytes(p, unused); b[0..4] == Encode32(p.off) && b[4..6] == Encode16(p.seg) && b[8..12] == Encode32(p.len)
  {
    hide Encode32, Encode16;
  }

  lemma PartBytes16Are(p: Part, unused: u16)
    requires Small(p)
    ensures var b := PartBytes16(p, unused); b[0..2] == Encode16(p.off) && b[4..6] == Encode16(p.seg) && b[6..8] == Encode16(p.len)
  {
    hide Encode16;
  }

  /** A table in place reads as the parts that were written there. */
  lemma TableReadsBack(mem: seq<byte>, a: nat, ps: seq<Part>, unused: seq<u16>)
    requires TableAt(mem, a, ps, unused)
    ensures InPlace(a, |ps|).Inside(mem) && InPlace(a, |ps|).Parts(mem) == ps
  {
    hide PartBytes, Encode16, Encode32, Decode16, Decode32;
    var t := InPlace(a, |ps|);
    forall i | 0 <= i < |ps| ensures t.Entry(mem, i) == ps[i] {
      var e := a + 12 * i;
      PartBytesAre(ps[i], unused[i]);
      SliceOfSlice(mem, e, e + 12, 0, 4);
      SliceOfSlice(mem, e, e + 12, 4, 6);
      SliceOfSlice(mem, e, e + 12, 8, 12);
      DecodeEncode32(ps[i].off);
      DecodeEncode32(ps[i].len);
      LittleEndian(0, ps[i].seg);
    }
  }

  /** A copy of a 16-bit table, too. */
  lemma Table16ReadsBack(mem: seq<byte>, a: nat, ps: seq<Part>, unused: seq<u16>, t: Table)
    requires TableAt16(mem, a, ps, unused) && t.Inside(mem) && t.Count() == |ps|
    requires forall i :: 0 <= i < |ps| ==> t.Parts(mem)[i] == Entry16(mem, a, i)
    ensures t.Parts(mem) == ps
  {
    hide PartBytes16, Encode16, Decode16, Table.Entry;
    forall i | 0 <= i < |ps| ensures t.Parts(mem)[i] == ps[i] {
      var e := a + 8 * i;
      PartBytes16Are(ps[i], unused[i]);
      SliceOfSlice(mem, e, e + 8, 0, 2);
      SliceOfSlice(mem, e, e + 8, 4, 6);
      SliceOfSlice(mem, e, e + 8, 6, 8);
      LittleEndian(0, ps[i].off);
      LittleEndian(0, ps[i].seg);
      LittleEndian(0, ps[i].len);
    }
  }

  /** The part table of a message: 32-bit entries stay where they are, 16-bit ones are copied. */
  method OpenTable(segs: SegTable, mem: seq<byte>, sel: u16, off: u32, n: nat, b32: bool) returns (t: Option<Table>)
    requires Backed(segs, mem)
    ensures t.Some? <==> Translate(segs, sel, off, (if b32 then 12 else 8) * n).Some?
    ensures t.Some? ==> t.value.Inside(mem) && t.value.Count() == n
    ensures t.Some? ==> var a := Translate(segs, sel, off, (if b32 then 12 else 8) * n).value;
      if b32 then t.value == InPlace(a, n)
      else a + 8 * n <= |mem| && forall i :: 0 <= i < n ==> t.value.Parts(mem)[i] == Entry16(mem, a, i)
    ensures t.Some? ==> var a := Translate(segs, sel, off, (if b32 then 12 else 8) * n).value;
      forall ps, unused :: |ps| == n && (if b32 then TableAt(mem, a, ps, unused) else TableAt16(mem, a, ps, unused)) ==>
        t.value.Parts(mem) == ps
  {
    hide Translate, Backed, TableAt, TableAt16, Entry16;
    var a := Translate(segs, sel, off, (if b32 then 12 else 8) * n);
    if a.None? {
      return None;
    }
    TranslateBacked(segs, mem, sel, off, (if b32 then 12 else 8) * n);
    if b32 {
      forall ps, unused | |ps| == n && TableAt(mem, a.value, ps, unused) ensures InPlace(a.value, n).Parts(mem) == ps {
        TableReadsBack(mem, a.value, ps, unused);
      }
      return Some(InPlace(a.value, n));
    }
    var dst: seq<Part> := [];
    for i := 0 to n
      invariant |dst| == i && forall j :: 0 <= j < i ==> dst[j] == Entry16(mem, a.value, j)
    {
      dst := dst + [Entry16(mem, a.value, i)];
    }
    forall ps, unused | |ps| == n && TableAt16(mem, a.value, ps, unused) ensures Copied(dst).Parts(mem) == ps {
      Table16ReadsBack(mem, a.value, ps, unused, Copied(dst));
    }
    return Some(Copied(dst));
  }

  // ----- the iterator

  class Iterator {
    const table: Table
    var i: nat
    var offsetOfChunk: nat
    var offset: nat

    constructor (table: Table)
      ensures this.table == table && i == 0 && offsetOfChunk == 0 && offset == 0
    {
      this.table, i, offsetOfChunk, offset := table, 0, 0, 0;
    }

    /** msg_offset: the position in the flat string. */
    function Pos(): nat
      reads this
    {
      offsetOfChunk + offset
    }

    predicate ValidFor(parts: seq<Part>)
      reads this
    {
      && i <= |parts| && offsetOfChunk == Start(parts, i)
      && offset <= (if i < |parts| then parts[i].len else 0)
    }

    predicate Valid(mem: seq<byte>)
      reads this
    {
      table.Inside(mem) && ValidFor(table.Parts(mem))
    }

    method Normalize(mem: seq<byte>)
      requires Valid(mem)
      modifies this
      ensures Valid(mem) && Pos() == old(Pos())
      ensures i < table.Count() ==> offset < table.Entry(mem, i).len
    {
      while i < table.Count() && offset >= table.Entry(mem, i).len
        invariant Valid(mem) && Pos() == old(Pos())
        decreases table.Count() - i
      {
        FlatAt(table.Parts(mem), i);
        offsetOfChunk := offsetOfChunk + offset;
        offset := 0;
        i := i + 1;
      }
    }

    /**
     The next slice: the string of locations from the position on, at most `size` of them and not
     beyond the part they lie in; it is empty only for size 0 or at the end.
     */
    method Next(mem: seq<byte>, size: nat) returns (slice: Part)
      requires Valid(mem)
      modifies this
      ensures Valid(mem) && Pos() == old(Pos()) + slice.len <= |Flat(table.Parts(mem))|
      ensures slice.len <= size
      ensures Flat(table.Parts(mem))[old(Pos())..Pos()] == PartLocs(slice)
      ensures slice.len == 0 <==> size == 0 || old(Pos()) == |Flat(table.Parts(mem))|
      ensures slice.len > 0 ==> i < table.Count() && EndsIn(table.Parts(mem), i, old(Pos()), slice.len, size)
    {
      hide PartLocs, Flat, Wrap32;
      ghost var parts := table.Parts(mem);
      Normalize(mem);
      if i == table.Count() {
        StartEnd(parts);
        return Part(0, 0, 0);
      }
      var c := table.Entry(mem, i);
      var toRead := c.len - offset;
      if toRead > size {
        toRead := size;
      }
      slice := Part(c.seg, Wrap32(c.off + offset), toRead);
      FlatAt(parts, i);
      SubSlice(Flat(parts), Start(parts, i), c, offset, slice);
      offset := offset + toRead;
    }

    /** To the given position, or to the end of the message. */
    method SkipTo(mem: seq<byte>, dst: nat)
      requires Valid(mem) && Pos() <= dst
      modifies this
      ensures Valid(mem) && Pos() == if dst < |Flat(table.Parts(mem))| then dst else |Flat(table.Parts(mem))|
    {
      ghost var n := |Flat(table.Parts(mem))|;
      var remaining := dst - Pos();
      var s := Next(mem, remaining);
      while s.len != 0
        invariant Valid(mem) && Pos() <= dst && Pos() <= n
        invariant s.len == 0 ==> Pos() == dst || Pos() == n
        decreases dst - Pos() + (if s.len == 0 then 0 else 1)
      {
        remaining := dst - Pos();
        s := Next(mem, remaining);
      }
    }
  }

  /** A piece of a part, in the flat string. */
  lemma SubSlice(flat: seq<Loc>, start: nat, c: Part, from: nat, slice: Part)
    requires start + c.len <= |flat| && flat[start..start + c.len] == PartLocs(c)
    requires from + slice.len <= c.len && slice.seg == c.seg && slice.off == Wrap32(c.off + from)
    ensures flat[start + from..start + from + slice.len] == PartLocs(slice)
  {
    hide PartLocs, Wrap32;
    forall k | 0 <= k < slice.len ensures flat[start + from..start + from + slice.len][k] == PartLocs(slice)[k] {
      WrapSum((c.off as int) + from, k);
      assert flat[start + from + k] == flat[start..start + c.len][from + k] == PartLocs(c)[from + k];
      PartLocAt(c, from + k);
      PartLocAt(slice, k);
    }
  }
}
