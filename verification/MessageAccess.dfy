/**
 Reading and writing a message: into a buffer, as an iovec, and byte by byte (src/msg.cpp,
 src/msg.h). All of them are described by the one flat string of locations.
 */
module MessageAccess {
  import opened Words
  import opened Segments
  import opened Messages

  const OVERREAD: byte := 0xCC

  /** The locations at [offset, offset + size), as far as the message reaches. */
  function Window(flat: seq<Loc>, offset: nat, size: nat): (w: seq<Loc>)
    ensures |w| <= size && (offset + size <= |flat| ==> |w| == size)
  {
    var lo := if offset < |flat| then offset else |flat|;
    var hi := if offset + size < |flat| then offset + size else |flat|;
    flat[lo..hi]
  }

  function Fill(b: byte, n: nat): (s: seq<byte>)
    ensures |s| == n && forall i :: 0 <= i < n ==> s[i] == b
  {
    seq(n, _ => b)
  }

  // ----- writing a string of locations

  /** One byte after the other. */
  function Poke(segs: SegTable, mem: seq<byte>, locs: seq<Loc>, data: seq<byte>): (mem': seq<byte>)
    requires Backed(segs, mem) && AllOk(segs, locs) && |data| == |locs|
    ensures |mem'| == |mem| && Backed(segs, mem')
  {
    if locs == [] then mem
    else
      var n := |locs| - 1;
      TranslateBacked(segs, mem, locs[n].seg, locs[n].off, 1);
      Poke(segs, mem, locs[..n], data[..n])[Addr(segs, locs[n]).value := data[n]]
  }

  lemma {:induction false} PokeAppend(segs: SegTable, mem: seq<byte>, a: seq<Loc>, da: seq<byte>, b: seq<Loc>, db: seq<byte>)
    requires Backed(segs, mem) && AllOk(segs, a) && AllOk(segs, b) && |da| == |a| && |db| == |b|
    ensures AllOk(segs, a + b)
    ensures Poke(segs, mem, a + b, da + db) == Poke(segs, Poke(segs, mem, a, da), b, db)
    decreases |b|
  {
    hide Backed, Addr;
    if b == [] {
      assert a + b == a && da + db == da;
    } else {
      var n := |b| - 1;
      assert (a + b)[..|a + b| - 1] == a + b[..n];
      assert (da + db)[..|a + b| - 1] == da + db[..n];
      PokeAppend(segs, mem, a, da, b[..n], db[..n]);
    }
  }

  lemma {:induction false} PokeRange(segs: SegTable, mem: seq<byte>, p: Part, data: seq<byte>, k: nat)
    requires Backed(segs, mem) && p.len > 0 && Translate(segs, p.seg, p.off, p.len).Some?
    requires AllOk(segs, PartLocs(p)) && |data| == p.len && k <= p.len
    requires Translate(segs, p.seg, p.off, p.len).value + p.len <= |mem|
    ensures Poke(segs, mem, PartLocs(p)[..k], data[..k]) == Splice(mem, Translate(segs, p.seg, p.off, p.len).value, data[..k])
  {
    hide Backed, Addr, Translate, PartLocs;
    if k > 0 {
      PokeRange(segs, mem, p, data, k - 1);
      assert PartLocs(p)[..k][..k - 1] == PartLocs(p)[..k - 1] && data[..k][..k - 1] == data[..k - 1];
      BackedIsValid(segs, mem);
      RangeOkIsEach(segs, p);
    }
  }

  /** Distinct accessible locations lie at distinct addresses: the parts are pairwise disjoint in memory. */
  predicate Disjoint(segs: SegTable, locs: seq<Loc>) {
    forall i, j :: 0 <= i < j < |locs| && Addr(segs, locs[i]).Some? ==> Addr(segs, locs[i]) != Addr(segs, locs[j])
  }

  /** Every byte outside the written locations keeps its value. */
  lemma {:induction false} PokeElsewhere(segs: SegTable, mem: seq<byte>, locs: seq<Loc>, data: seq<byte>, a: nat)
    requires Backed(segs, mem) && AllOk(segs, locs) && |data| == |locs| && a < |mem|
    requires forall k :: 0 <= k < |locs| ==> Addr(segs, locs[k]) != Some(a)
    ensures Poke(segs, mem, locs, data)[a] == mem[a]
    decreases |locs|
  {
    hide Backed, Addr;
    if locs != [] {
      PokeElsewhere(segs, mem, locs[..|locs| - 1], data[..|locs| - 1], a);
    }
  }

  /** No later location shares the address of the k-th one. */
  predicate Last(segs: SegTable, locs: seq<Loc>, k: nat)
    requires k < |locs|
  {
    forall j :: k < j < |locs| ==> Addr(segs, locs[j]) != Addr(segs, locs[k])
  }

  /** Of the bytes written to one address the last one stays. */
  lemma {:induction false} PokeAt(segs: SegTable, mem: seq<byte>, locs: seq<Loc>, data: seq<byte>, k: nat)
    requires Backed(segs, mem) && AllOk(segs, locs) && |data| == |locs| && k < |locs| && Last(segs, locs, k)
    ensures Addr(segs, locs[k]).value < |mem|
    ensures Poke(segs, mem, locs, data)[Addr(segs, locs[k]).value] == data[k]
    decreases |locs|
  {
    hide Backed, Addr;
    var n := |locs| - 1;
    AddrInMemory(segs, mem, locs[n]);
    if k < n {
      PokeAt(segs, mem, locs[..n], data[..n], k);
    }
  }

  lemma AddrInMemory(segs: SegTable, mem: seq<byte>, l: Loc)
    requires Backed(segs, mem) && Addr(segs, l).Some?
    ensures Addr(segs, l).value < |mem|
  {
  }

  lemma BytesAt(segs: SegTable, mem: seq<byte>, locs: seq<Loc>, k: nat)
    requires Backed(segs, mem) && AllOk(segs, locs) && k < |locs|
    ensures Addr(segs, locs[k]).value < |mem|
    ensures Held(segs, mem, locs)[k] == mem[Addr(segs, locs[k]).value]
  {
  }

  lemma WindowAt(flat: seq<Loc>, offset: nat, size: nat, k: nat)
    requires k < |Window(flat, offset, size)|
    ensures offset + k < |flat| && Window(flat, offset, size)[k] == flat[offset + k]
  {
  }

  /** What a location holds; None when it is not accessible. */
  function PeekLoc(segs: SegTable, mem: seq<byte>, l: Loc): Option<byte>
    requires Backed(segs, mem)
  {
    match Addr(segs, l)
    case None => None
    case Some(a) => AddrInMemory(segs, mem, l); Some(mem[a])
  }

  /** The message as it reads, location by location. */
  function View(segs: SegTable, mem: seq<byte>, flat: seq<Loc>): (s: seq<Option<byte>>)
    requires Backed(segs, mem)
    ensures |s| == |flat|
  {
    seq(|flat|, k requires 0 <= k < |flat| => PeekLoc(segs, mem, flat[k]))
  }

  /** Where a message is accessible, the view is its contents. */
  lemma ViewIsHeld(segs: SegTable, mem: seq<byte>, flat: seq<Loc>, k: nat)
    requires Backed(segs, mem) && AllOk(segs, flat) && k < |flat|
    ensures View(segs, mem, flat)[k] == Some(Held(segs, mem, flat)[k])
  {
  }

  /** Memory after a write of `data` at `offset` of the message. */
  function WriteMem(segs: SegTable, mem: seq<byte>, flat: seq<Loc>, offset: nat, data: seq<byte>): (mem': seq<byte>)
    requires Backed(segs, mem) && AllOk(segs, Window(flat, offset, |data|))
    ensures |mem'| == |mem| && Backed(segs, mem')
  {
    var w := Window(flat, offset, |data|);
    Poke(segs, mem, w, data[..|w|])
  }

  /** The view after the same write: the data over the old bytes, cut off at the end of the message. */
  function WriteFlat(s: seq<Option<byte>>, offset: nat, data: seq<byte>): (s': seq<Option<byte>>)
    ensures |s'| == |s|
  {
    seq(|s|, i requires 0 <= i < |s| => if offset <= i < offset + |data| then Some(data[i - offset]) else s[i])
  }

  /**
   Whether or not parts overlap: after a write each address of the window holds the last byte that
   went to it, and no other byte of memory changed.
   */
  lemma WriteExact(segs: SegTable, mem: seq<byte>, flat: seq<Loc>, offset: nat, data: seq<byte>)
    requires Backed(segs, mem) && AllOk(segs, Window(flat, offset, |data|))
    ensures var (w, mem') := (Window(flat, offset, |data|), WriteMem(segs, mem, flat, offset, data));
      && (forall k :: 0 <= k < |w| && Last(segs, w, k) ==> PeekLoc(segs, mem', w[k]) == Some(data[k]))
      && (forall a :: 0 <= a < |mem| && (forall k :: 0 <= k < |w| ==> Addr(segs, w[k]) != Some(a)) ==> mem'[a] == mem[a])
  {
    hide Backed, Addr, Poke, Window, Last;
    var w := Window(flat, offset, |data|);
    var mem' := WriteMem(segs, mem, flat, offset, data);
    forall k | 0 <= k < |w| && Last(segs, w, k) ensures PeekLoc(segs, mem', w[k]) == Some(data[k]) {
      PokeAt(segs, mem, w, data[..|w|], k);
    }
    forall a | 0 <= a < |mem| && (forall k :: 0 <= k < |w| ==> Addr(segs, w[k]) != Some(a)) ensures mem'[a] == mem[a] {
      PokeElsewhere(segs, mem, w, data[..|w|], a);
    }
  }

  lemma DisjointWindow(segs: SegTable, flat: seq<Loc>, offset: nat, size: nat, k: nat)
    requires Disjoint(segs, flat) && k < |flat| && Addr(segs, flat[k]).Some?
    ensures var w := Window(flat, offset, size);
      if offset <= k < offset + |w| then w[k - offset] == flat[k] && Last(segs, w, k - offset)
      else forall j :: 0 <= j < |w| ==> Addr(segs, w[j]) != Addr(segs, flat[k])
  {
  }

  /**
   With pairwise disjoint parts, a write changes exactly the bytes at [offset, offset + k) of the
   message, k being the smaller of the size and the room left, and leaves all other memory alone.
   Parts outside the window need not be accessible.
   */
  lemma WriteIsSplice(segs: SegTable, mem: seq<byte>, flat: seq<Loc>, offset: nat, data: seq<byte>)
    requires Backed(segs, mem) && AllOk(segs, Window(flat, offset, |data|)) && Disjoint(segs, flat)
    ensures View(segs, WriteMem(segs, mem, flat, offset, data), flat) == WriteFlat(View(segs, mem, flat), offset, data)
  {
    hide Backed, Addr, WriteMem, Disjoint, Window, PeekLoc, AllOk;
    forall k | 0 <= k < |flat|
      ensures View(segs, WriteMem(segs, mem, flat, offset, data), flat)[k] == WriteFlat(View(segs, mem, flat), offset, data)[k]
    {
      WrittenByte(segs, mem, flat, offset, data, k);
    }
  }

  lemma WrittenByte(segs: SegTable, mem: seq<byte>, flat: seq<Loc>, offset: nat, data: seq<byte>, k: nat)
    requires Backed(segs, mem) && AllOk(segs, Window(flat, offset, |data|)) && Disjoint(segs, flat) && k < |flat|
    ensures PeekLoc(segs, WriteMem(segs, mem, flat, offset, data), flat[k])
      == if offset <= k < offset + |data| then Some(data[k - offset]) else PeekLoc(segs, mem, flat[k])
  {
    hide Backed, Addr, Disjoint, Window, Last, WriteMem;
    var w := Window(flat, offset, |data|);
    WindowSize(flat, offset, |data|);
    if offset <= k < offset + |data| {
      WindowAt(flat, offset, |data|, k - offset);
      assert Addr(segs, w[k - offset]).Some?;
    }
    if Addr(segs, flat[k]).Some? {
      DisjointWindow(segs, flat, offset, |data|, k);
      WriteExact(segs, mem, flat, offset, data);
      AddrInMemory(segs, mem, flat[k]);
    }
  }

  lemma WindowSize(flat: seq<Loc>, offset: nat, size: nat)
    ensures |Window(flat, offset, size)| == if offset >= |flat| then 0 else if size <= |flat| - offset then size else |flat| - offset
  {
  }

  /** read_written after a write at the same offset gives back what was written, as far as there was room. */
  lemma WrittenReadsBack(segs: SegTable, mem: seq<byte>, flat: seq<Loc>, offset: nat, data: seq<byte>)
    requires var w := Window(flat, offset, |data|); Backed(segs, mem) && AllOk(segs, w) && Disjoint(segs, w)
    ensures var w := Window(flat, offset, |data|);
      Held(segs, WriteMem(segs, mem, flat, offset, data), w) == data[..|w|]
  {
    hide Backed, Addr, Poke, Held, Window;
    var w := Window(flat, offset, |data|);
    var mem' := WriteMem(segs, mem, flat, offset, data);
    forall k | 0 <= k < |w| ensures Held(segs, mem', w)[k] == data[k] {
      PokeAt(segs, mem, w, data[..|w|], k);
      BytesAt(segs, mem', w, k);
    }
  }

  datatype Put = Put(offset: nat, data: seq<byte>)

  /** None of the writes faults. */
  predicate PutsOk(segs: SegTable, flat: seq<Loc>, ws: seq<Put>) {
    forall i :: 0 <= i < |ws| ==> AllOk(segs, Window(flat, ws[i].offset, |ws[i].data|))
  }

  function WriteMemAll(segs: SegTable, mem: seq<byte>, flat: seq<Loc>, ws: seq<Put>): (mem': seq<byte>)
    requires Backed(segs, mem) && PutsOk(segs, flat, ws)
    ensures |mem'| == |mem| && Backed(segs, mem')
    decreases |ws|
  {
    if ws == [] then mem
    else WriteMemAll(segs, WriteMem(segs, mem, flat, ws[0].offset, ws[0].data), flat, ws[1..])
  }

  function WriteFlatAll(s: seq<Option<byte>>, ws: seq<Put>): (s': seq<Option<byte>>)
    ensures |s'| == |s|
    decreases |ws|
  {
    if ws == [] then s else WriteFlatAll(WriteFlat(s, ws[0].offset, ws[0].data), ws[1..])
  }

  /** Any sequence of writes, seen through the flat string. */
  lemma {:induction false} WritesAreSplices(segs: SegTable, mem: seq<byte>, flat: seq<Loc>, ws: seq<Put>)
    requires Backed(segs, mem) && PutsOk(segs, flat, ws) && Disjoint(segs, flat)
    ensures View(segs, WriteMemAll(segs, mem, flat, ws), flat) == WriteFlatAll(View(segs, mem, flat), ws)
    decreases |ws|
  {
    hide Backed, AllOk, Disjoint, View, WriteMem, WriteFlat;
    if ws != [] {
      WriteIsSplice(segs, mem, flat, ws[0].offset, ws[0].data);
      WritesAreSplices(segs, WriteMem(segs, mem, flat, ws[0].offset, ws[0].data), flat, ws[1..]);
    }
  }

  // ----- iovecs

  datatype Iov = Guest(base: nat, len: nat) | Garbage(len: nat)

  /** The buffer that stands in for the part of an iovec beyond the message. */
  const GARBAGE: seq<byte> := [0x58] + Fill(0, 255)

  /** The addresses an iovec covers, None within garbage. */
  function IovAddrs(v: seq<Iov>): seq<Option<nat>> {
    if v == [] then []
    else IovAddrs(v[..|v| - 1]) + EntryAddrs(v[|v| - 1])
  }

  function EntryAddrs(e: Iov): (s: seq<Option<nat>>)
    ensures |s| == e.len
  {
    seq(e.len, k => if e.Guest? then Some(e.base + k) else None)
  }

  function Addrs(segs: SegTable, locs: seq<Loc>): (s: seq<Option<nat>>)
    ensures |s| == |locs|
  {
    seq(|locs|, k requires 0 <= k < |locs| => Addr(segs, locs[k]))
  }

  function Nones(n: nat): (s: seq<Option<nat>>)
    ensures |s| == n
  {
    seq(n, _ => None)
  }

  lemma IovAppend(v: seq<Iov>, e: Iov)
    ensures IovAddrs(v + [e]) == IovAddrs(v) + EntryAddrs(e)
  {
  }

  lemma AddrsAppend(segs: SegTable, a: seq<Loc>, b: seq<Loc>)
    ensures Addrs(segs, a + b) == Addrs(segs, a) + Addrs(segs, b)
    ensures AllOk(segs, a) && AllOk(segs, b) ==> AllOk(segs, a + b)
  {
    hide Addr;
  }

  lemma GuestEntryAddrs(segs: SegTable, p: Part)
    requires ValidTable(segs) && p.len > 0 && Translate(segs, p.seg, p.off, p.len).Some?
    ensures EntryAddrs(Guest(Translate(segs, p.seg, p.off, p.len).value, p.len)) == Addrs(segs, PartLocs(p))
  {
    hide Translate, PartLocs, ValidTable;
    RangeOkIsEach(segs, p);
  }

  // ----- the message

  lemma WindowGrows(flat: seq<Loc>, lo: nat, pos: nat, slice: Part)
    requires lo <= pos && pos + slice.len <= |flat| && flat[pos..pos + slice.len] == PartLocs(slice)
    ensures flat[lo..pos + slice.len] == flat[lo..pos] + PartLocs(slice)
  {
  }

  /** What a loop from `lo` that used up the size or the message has passed over. */
  lemma WindowReached(flat: seq<Loc>, offset: nat, size: nat, lo: nat, pos: nat)
    requires lo == (if offset < |flat| then offset else |flat|) <= pos <= |flat| && pos - lo <= size
    requires pos - lo == size || pos == |flat|
    ensures flat[lo..pos] == Window(flat, offset, size)
  {
  }

  /** A slice inside the window that does not translate spoils the window. */
  lemma BadSlice(segs: SegTable, flat: seq<Loc>, offset: nat, size: nat, lo: nat, pos: nat, slice: Part)
    requires ValidTable(segs) && slice.len > 0 && Translate(segs, slice.seg, slice.off, slice.len).None?
    requires lo == (if offset < |flat| then offset else |flat|) <= pos && pos - lo + slice.len <= size
    requires pos + slice.len <= |flat| && flat[pos..pos + slice.len] == PartLocs(slice)
    ensures !AllOk(segs, Window(flat, offset, size))
    ensures pos - lo <= |Window(flat, offset, size)| && Window(flat, offset, size)[..pos - lo] == flat[lo..pos]
  {
    hide Translate, Addr, ValidTable, PartLocs;
    var hi := if offset + size < |flat| then offset + size else |flat|;
    assert flat[lo..hi] == Window(flat, offset, size);
    RangeOk(segs, slice);
    var k :| 0 <= k < slice.len && Addr(segs, PartLocs(slice)[k]).None?;
    assert PartLocs(slice)[k] == flat[pos..pos + slice.len][k] == flat[lo..hi][pos - lo + k];
  }

  /**
   A write stops after k bytes at the slice in the i-th part: k bytes lie in front of that slice
   in the window, and some location of the slice is not accessible.
   */
  predicate StopsAt(segs: SegTable, parts: seq<Part>, offset: nat, size: nat, k: nat, i: nat)
    requires i < |parts|
  {
    var flat := Flat(parts);
    var end := if offset + size < Start(parts, i + 1) then offset + size else Start(parts, i + 1);
    && offset + k == (if Start(parts, i) < offset then offset else Start(parts, i))
    && offset + k < end <= |flat| && !AllOk(segs, flat[offset + k..end])
  }

  /** The number of bytes written before a fault is determined by the message. */
  lemma StopIsUnique(segs: SegTable, parts: seq<Part>, offset: nat, size: nat, k: nat, i: nat, k': nat, i': nat)
    requires i < |parts| && i' < |parts| && k < k'
    requires StopsAt(segs, parts, offset, size, k, i) && StopsAt(segs, parts, offset, size, k', i')
    ensures !AllOk(segs, Window(Flat(parts), offset, size)[..k'])
  {
    hide Flat, AllOk, Start, Window;
    var flat := Flat(parts);
    WindowSize(flat, offset, size);
    if i' <= i {
      StartMonotone(parts, i', i);
    } else {
      StartMonotone(parts, i + 1, i');
    }
    assert Start(parts, i + 1) <= offset + k';
    var end := if offset + size < Start(parts, i + 1) then offset + size else Start(parts, i + 1);
    BadInside(segs, flat, offset, size, k, end, k');
  }

  lemma BadInside(segs: SegTable, flat: seq<Loc>, offset: nat, size: nat, k: nat, end: nat, k': nat)
    requires offset + k <= end <= |flat| && end <= offset + k' && k' <= |Window(flat, offset, size)|
    requires !AllOk(segs, flat[offset + k..end])
    ensures !AllOk(segs, Window(flat, offset, size)[..k'])
  {
    hide Addr, Window;
    var j :| 0 <= j < end - offset - k && Addr(segs, flat[offset + k..end][j]).None?;
    WindowAt(flat, offset, size, k + j);
    assert Window(flat, offset, size)[..k'][k + j] == flat[offset + k..end][j];
  }

  class Msg {
    const segs: SegTable
    var mem: seq<byte>
    const send: Table
    const rcv: Table

    constructor (segs: SegTable, mem: seq<byte>, send: Table, rcv: Table)
      requires Backed(segs, mem) && send.Inside(mem) && rcv.Inside(mem)
      ensures Valid() && this.segs == segs && this.mem == mem && this.send == send && this.rcv == rcv
    {
      this.segs, this.mem, this.send, this.rcv := segs, mem, send, rcv;
    }

    predicate Valid()
      reads this
    {
      Backed(segs, mem) && send.Inside(mem) && rcv.Inside(mem)
    }

    /** The message that a table describes at this moment. */
    function FlatOf(t: Table): seq<Loc>
      requires Valid() && t.Inside(mem)
      reads this
    {
      Flat(t.Parts(mem))
    }

    /** The loop of `read` and of `read_written`. */
    method Gather(t: Table, offset: nat, size: nat) returns (r: Option<seq<byte>>)
      requires Valid() && t.Inside(mem)
      ensures var w := Window(FlatOf(t), offset, size);
        r == if AllOk(segs, w) then Some(Held(segs, mem, w) + Fill(OVERREAD, size - |w|)) else None
    {
      hide Translate, AllOk, Held, PartLocs, Backed, Flat, Table.Parts, Table.Inside, Window, Iterator.ValidFor;
      BackedIsValid(segs, mem);
      ghost var flat := FlatOf(t);
      var it := new Iterator(t);
      IteratorStarts(it, t.Parts(mem));
      it.SkipTo(mem, offset);
      ghost var lo := it.Pos();
      var dst: seq<byte> := [];
      NothingHeld(segs, mem, flat, lo);
      var left := size;
      while left > 0
        invariant it.table == t && it.Valid(mem) && lo <= it.Pos() <= |flat|
        invariant left == size - |dst| && |dst| == it.Pos() - lo && left >= 0
        invariant AllOk(segs, flat[lo..it.Pos()]) && dst == Held(segs, mem, flat[lo..it.Pos()])
        decreases left
      {
        ghost var pos := it.Pos();
        var slice := it.Next(mem, left);
        if slice.len == 0 {
          break;
        }
        var src := Translate(segs, slice.seg, slice.off, slice.len);
        if src.None? {
          BadSlice(segs, flat, offset, size, lo, pos, slice);
          return None;
        }
        ReadSlice(segs, mem, flat, lo, pos, slice);
        dst := dst + mem[src.value..src.value + slice.len];
        left := left - slice.len;
      }
      WindowReached(flat, offset, size, lo, it.Pos());
      return Some(dst + Fill(OVERREAD, left));
    }

    method Read(offset: nat, size: nat) returns (r: Option<seq<byte>>)
      requires Valid()
      ensures var w := Window(FlatOf(send), offset, size);
        r == if AllOk(segs, w) then Some(Held(segs, mem, w) + Fill(OVERREAD, size - |w|)) else None
    {
      r := Gather(send, offset, size);
    }

    method ReadWritten(offset: nat, size: nat) returns (r: Option<seq<byte>>)
      requires Valid()
      ensures var w := Window(FlatOf(rcv), offset, size);
        r == if AllOk(segs, w) then Some(Held(segs, mem, w) + Fill(OVERREAD, size - |w|)) else None
    {
      r := Gather(rcv, offset, size);
    }

    /** No location of the reply lies in the part table itself. */
    predicate TableApart()
      requires Valid()
      reads this
    {
      var flat := FlatOf(rcv);
      forall k :: 0 <= k < |flat| && Addr(segs, flat[k]).Some? ==> !rcv.Covers(Addr(segs, flat[k]).value)
    }

    /**
     Writes as much of `data` as the reply has room for. A fault stops it after exactly the k bytes
     that lie in front of the first slice that does not translate.
     */
    method WriteData(offset: nat, data: seq<byte>) returns (ok: bool, k: nat)
      requires Valid() && TableApart()
      modifies this
      ensures Valid() && FlatOf(rcv) == old(FlatOf(rcv))
      ensures var w := Window(old(FlatOf(rcv)), offset, |data|);
        && (ok <==> AllOk(segs, w))
        && k <= |w| && (ok ==> k == |w|) && AllOk(segs, w[..k])
        && mem == Poke(segs, old(mem), w[..k], data[..k])
      ensures !ok ==> var parts := old(rcv.Parts(mem)); exists i :: 0 <= i < |parts| && StopsAt(segs, parts, offset, |data|, k, i)
    {
      hide Translate, AllOk, PartLocs, Backed, Flat, Table.Parts, Table.Inside, Poke, Window, Splice, Iterator.ValidFor, Table.Covers, Start, StopsAt;
      ghost var flat, mem0 := FlatOf(rcv), mem;
      ghost var parts := rcv.Parts(mem);
      var it := new Iterator(rcv);
      IteratorStarts(it, parts);
      it.SkipTo(mem, offset);
      ghost var lo := it.Pos();
      ghost var next: nat := 0;
      k := 0;
      PokeNothing(segs, mem, flat, lo, data);
      while k < |data|
        invariant Valid() && rcv.Parts(mem) == parts
        invariant it.table == rcv && it.ValidFor(parts) && lo <= it.Pos() <= |flat|
        invariant k <= |data| && k == it.Pos() - lo && next <= |parts|
        invariant k == 0 || k == |data| || it.Pos() == Start(parts, next)
        invariant AllOk(segs, flat[lo..it.Pos()]) && mem == Poke(segs, mem0, flat[lo..it.Pos()], data[..k])
        decreases |data| - k
      {
        ghost var pos := it.Pos();
        var slice := it.Next(mem, |data| - k);
        if slice.len == 0 {
          break;
        }
        var dst := Translate(segs, slice.seg, slice.off, slice.len);
        if dst.None? {
          BackedIsValid(segs, mem);
          BadSlice(segs, flat, offset, |data|, lo, pos, slice);
          SliceStops(segs, parts, offset, |data|, k, it.i, next, slice);
          return false, k;
        }
        TranslateBacked(segs, mem, slice.seg, slice.off, slice.len);
        WriteSlice(segs, mem0, mem, flat, lo, pos, slice, data, k);
        TableKept(segs, rcv, mem, flat, pos, slice, data[k..k + slice.len]);
        TableInside(send, mem, Splice(mem, dst.value, data[k..k + slice.len]));
        mem := Splice(mem, dst.value, data[k..k + slice.len]);
        k := k + slice.len;
        next := it.i + 1;
      }
      WindowReached(flat, offset, |data|, lo, it.Pos());
      assert Window(flat, offset, |data|)[..k] == Window(flat, offset, |data|);
      return true, k;
    }

    /** The part of an iovec that lies in the message. */
    method GuestIovec(t: Table, offset: nat, size: nat) returns (r: Option<seq<Iov>>, left: nat)
      requires Valid() && t.Inside(mem)
      ensures var w := Window(FlatOf(t), offset, size);
        && (r.Some? <==> AllOk(segs, w))
        && (r.Some? ==> IovAddrs(r.value) == Addrs(segs, w) && left == size - |w|)
      ensures r.Some? ==> forall e :: e in r.value ==> e.Guest? && e.len > 0
    {
      hide Translate, AllOk, Addrs, EntryAddrs, IovAddrs, PartLocs, Backed, Flat, Table.Parts, Table.Inside, Window, Iterator.ValidFor;
      BackedIsValid(segs, mem);
      ghost var flat := FlatOf(t);
      var it := new Iterator(t);
      IteratorStarts(it, t.Parts(mem));
      it.SkipTo(mem, offset);
      ghost var lo := it.Pos();
      var dst: seq<Iov> := [];
      NoAddrs(segs, flat, lo);
      left := size;
      while left != 0
        invariant it.table == t && it.Valid(mem) && lo <= it.Pos() <= |flat|
        invariant left == size - (it.Pos() - lo)
        invariant AllOk(segs, flat[lo..it.Pos()]) && IovAddrs(dst) == Addrs(segs, flat[lo..it.Pos()])
        invariant forall e :: e in dst ==> e.Guest? && e.len > 0
        decreases left
      {
        ghost var pos := it.Pos();
        var slice := it.Next(mem, left);
        if slice.len == 0 {
          break;
        }
        var ptr := Translate(segs, slice.seg, slice.off, slice.len);
        if ptr.None? {
          BadSlice(segs, flat, offset, size, lo, pos, slice);
          return None, left;
        }
        IovSlice(segs, flat, lo, pos, slice, dst);
        dst := dst + [Guest(ptr.value, slice.len)];
        left := left - slice.len;
      }
      WindowReached(flat, offset, size, lo, it.Pos());
      return Some(dst), left;
    }

    /** common_iovec: the message's own memory, then pieces of the garbage buffer up to the size. */
    method CommonIovec(t: Table, offset: nat, size: nat) returns (r: Option<seq<Iov>>)
      requires Valid() && t.Inside(mem)
      ensures var w := Window(FlatOf(t), offset, size);
        && (r.Some? <==> AllOk(segs, w))
        && (r.Some? ==> IovAddrs(r.value) == Addrs(segs, w) + Nones(size - |w|))
      ensures r.Some? ==> forall e :: e in r.value ==> e.len > 0 && (e.Garbage? ==> e.len <= |GARBAGE|)
    {
      hide Addr, AllOk, IovAddrs, Backed, Flat, Table.Parts, Table.Inside, Window;
      var left: nat;
      r, left := GuestIovec(t, offset, size);
      if r.None? {
        return;
      }
      var dst := r.value;
      ghost var addrs := IovAddrs(dst);
      while left != 0
        invariant left <= size - |addrs|
        invariant IovAddrs(dst) == addrs + Nones(size - |addrs| - left)
        invariant forall e :: e in dst ==> e.len > 0 && (e.Garbage? ==> e.len <= |GARBAGE|)
        decreases left
      {
        var n := if left < |GARBAGE| then left else |GARBAGE|;
        IovAppend(dst, Garbage(n));
        dst := dst + [Garbage(n)];
        left := left - n;
      }
      return Some(dst);
    }
  }

  lemma SliceStops(segs: SegTable, parts: seq<Part>, offset: nat, size: nat, k: nat, i: nat, next: nat, slice: Part)
    requires ValidTable(segs) && i < |parts| && next <= |parts| && k < size
    requires k == 0 || offset + k == Start(parts, next)
    requires slice.len > 0 && EndsIn(parts, i, offset + k, slice.len, size - k)
    requires offset + k + slice.len <= |Flat(parts)|
    requires Flat(parts)[offset + k..offset + k + slice.len] == PartLocs(slice)
    requires Translate(segs, slice.seg, slice.off, slice.len).None?
    ensures StopsAt(segs, parts, offset, size, k, i)
  {
    hide Flat, Addr, Start, Translate, PartLocs, ValidTable, AllOk;
    RangeOk(segs, slice);
    if k > 0 {
      if next <= i {
        StartMonotone(parts, next, i);
      } else {
        StartMonotone(parts, i + 1, next);
      }
    }
  }

  lemma IteratorStarts(it: Iterator, parts: seq<Part>)
    requires it.i == 0 && it.offsetOfChunk == 0 && it.offset == 0
    ensures it.ValidFor(parts)
  {
  }

  lemma NothingHeld(segs: SegTable, mem: seq<byte>, flat: seq<Loc>, lo: nat)
    requires Backed(segs, mem) && lo <= |flat|
    ensures AllOk(segs, flat[lo..lo]) && Held(segs, mem, flat[lo..lo]) == []
  {
  }

  lemma NoAddrs(segs: SegTable, flat: seq<Loc>, lo: nat)
    requires lo <= |flat|
    ensures AllOk(segs, flat[lo..lo]) && IovAddrs([]) == Addrs(segs, flat[lo..lo])
  {
  }

  lemma ReadSlice(segs: SegTable, mem: seq<byte>, flat: seq<Loc>, lo: nat, pos: nat, slice: Part)
    requires Backed(segs, mem) && lo <= pos && pos + slice.len <= |flat| && flat[pos..pos + slice.len] == PartLocs(slice)
    requires AllOk(segs, flat[lo..pos]) && slice.len > 0 && Translate(segs, slice.seg, slice.off, slice.len).Some?
    ensures var a := Translate(segs, slice.seg, slice.off, slice.len).value;
      && a + slice.len <= |mem| && AllOk(segs, flat[lo..pos + slice.len])
      && Held(segs, mem, flat[lo..pos + slice.len]) == Held(segs, mem, flat[lo..pos]) + mem[a..a + slice.len]
  {
    hide Translate, Backed, AllOk, Held, PartLocs;
    BytesOfRange(segs, mem, slice);
    WindowGrows(flat, lo, pos, slice);
    BytesAppend(segs, mem, flat[lo..pos], PartLocs(slice));
  }

  lemma IovSlice(segs: SegTable, flat: seq<Loc>, lo: nat, pos: nat, slice: Part, dst: seq<Iov>)
    requires ValidTable(segs) && lo <= pos && pos + slice.len <= |flat| && flat[pos..pos + slice.len] == PartLocs(slice)
    requires AllOk(segs, flat[lo..pos]) && slice.len > 0 && Translate(segs, slice.seg, slice.off, slice.len).Some?
    requires IovAddrs(dst) == Addrs(segs, flat[lo..pos])
    ensures AllOk(segs, flat[lo..pos + slice.len])
    ensures IovAddrs(dst + [Guest(Translate(segs, slice.seg, slice.off, slice.len).value, slice.len)])
         == Addrs(segs, flat[lo..pos + slice.len])
  {
    hide Translate, ValidTable, Addrs, EntryAddrs, IovAddrs, PartLocs;
    RangeOk(segs, slice);
    GuestEntryAddrs(segs, slice);
    WindowGrows(flat, lo, pos, slice);
    AddrsAppend(segs, flat[lo..pos], PartLocs(slice));
    IovAppend(dst, Guest(Translate(segs, slice.seg, slice.off, slice.len).value, slice.len));
  }

  lemma TableInside(t: Table, mem: seq<byte>, mem': seq<byte>)
    requires t.Inside(mem) && |mem'| == |mem|
    ensures t.Inside(mem')
  {
  }

  lemma PokeNothing(segs: SegTable, mem: seq<byte>, flat: seq<Loc>, lo: nat, data: seq<byte>)
    requires Backed(segs, mem) && lo <= |flat|
    ensures AllOk(segs, flat[lo..lo]) && Poke(segs, mem, flat[lo..lo], data[..0]) == mem
  {
  }

  lemma PokeWhole(segs: SegTable, mem: seq<byte>, p: Part, data: seq<byte>)
    requires Backed(segs, mem) && p.len > 0 && Translate(segs, p.seg, p.off, p.len).Some?
    requires AllOk(segs, PartLocs(p)) && |data| == p.len
    requires Translate(segs, p.seg, p.off, p.len).value + p.len <= |mem|
    ensures Poke(segs, mem, PartLocs(p), data) == Splice(mem, Translate(segs, p.seg, p.off, p.len).value, data)
  {
    hide Translate, AllOk, PartLocs, Backed, Poke, Splice;
    PokeRange(segs, mem, p, data, p.len);
    assert PartLocs(p)[..p.len] == PartLocs(p) && data[..p.len] == data;
  }

  /** Locations written so far, and then one slice as a block. */
  lemma PokeThen(segs: SegTable, mem0: seq<byte>, locs: seq<Loc>, data: seq<byte>, slice: Part, piece: seq<byte>)
    requires Backed(segs, mem0) && AllOk(segs, locs) && |data| == |locs| && |piece| == slice.len > 0
    requires Translate(segs, slice.seg, slice.off, slice.len).Some?
    requires Translate(segs, slice.seg, slice.off, slice.len).value + slice.len <= |mem0|
    ensures AllOk(segs, locs + PartLocs(slice))
    ensures Splice(Poke(segs, mem0, locs, data), Translate(segs, slice.seg, slice.off, slice.len).value, piece)
         == Poke(segs, mem0, locs + PartLocs(slice), data + piece)
  {
    hide Translate, AllOk, PartLocs, Backed, Poke, Splice;
    BackedIsValid(segs, mem0);
    RangeOk(segs, slice);
    PokeWhole(segs, Poke(segs, mem0, locs, data), slice, piece);
    PokeAppend(segs, mem0, locs, data, PartLocs(slice), piece);
  }

  lemma WriteSlice(segs: SegTable, mem0: seq<byte>, mem: seq<byte>, flat: seq<Loc>, lo: nat, pos: nat, slice: Part, data: seq<byte>, k: nat)
    requires Backed(segs, mem0) && Backed(segs, mem) && lo <= pos && pos + slice.len <= |flat| && k == pos - lo && k + slice.len <= |data|
    requires AllOk(segs, flat[lo..pos]) && mem == Poke(segs, mem0, flat[lo..pos], data[..k])
    requires slice.len > 0 && flat[pos..pos + slice.len] == PartLocs(slice)
    requires Translate(segs, slice.seg, slice.off, slice.len).Some?
    requires Translate(segs, slice.seg, slice.off, slice.len).value + slice.len <= |mem|
    ensures AllOk(segs, flat[lo..pos + slice.len])
    ensures Splice(mem, Translate(segs, slice.seg, slice.off, slice.len).value, data[k..k + slice.len])
         == Poke(segs, mem0, flat[lo..pos + slice.len], data[..k + slice.len])
  {
    hide Translate, AllOk, PartLocs, Backed, Poke, Splice;
    var locs, head, piece := flat[lo..pos], data[..k], data[k..k + slice.len];
    var locs', head' := flat[lo..pos + slice.len], data[..k + slice.len];
    assert locs' == locs + PartLocs(slice) by { WindowGrows(flat, lo, pos, slice); }
    assert head' == head + piece;
    PokeThen(segs, mem0, locs, head, slice, piece);
  }

  lemma TableKept(segs: SegTable, t: Table, mem: seq<byte>, flat: seq<Loc>, pos: nat, slice: Part, data: seq<byte>)
    requires Backed(segs, mem) && t.Inside(mem) && |data| == slice.len > 0 && pos + slice.len <= |flat|
    requires forall k :: 0 <= k < |flat| && Addr(segs, flat[k]).Some? ==> !t.Covers(Addr(segs, flat[k]).value)
    requires flat[pos..pos + slice.len] == PartLocs(slice) && Translate(segs, slice.seg, slice.off, slice.len).Some?
    requires Translate(segs, slice.seg, slice.off, slice.len).value + slice.len <= |mem|
    ensures var mem' := Splice(mem, Translate(segs, slice.seg, slice.off, slice.len).value, data);
      t.Inside(mem') && t.Parts(mem') == t.Parts(mem) && Backed(segs, mem')
  {
    hide Translate, Addr, PartLocs, Table.Parts;
    var a := Translate(segs, slice.seg, slice.off, slice.len).value;
    var mem' := Splice(mem, a, data);
    RangeOkIsEach(segs, slice);
    forall b | a <= b < a + slice.len ensures !t.Covers(b) {
      assert flat[pos + (b - a)] == flat[pos..pos + slice.len][b - a] == PartLocs(slice)[b - a];
    }
    TableUnchanged(t, mem, mem');
  }

  // ----- the views agree

  /** What a scatter list of addresses delivers; the garbage buffer is 'X' and then zeros. */
  function IovData(mem: seq<byte>, v: seq<Iov>): (s: seq<byte>)
    requires forall e :: e in v ==> if e.Guest? then e.base + e.len <= |mem| else e.len <= 256
  {
    if v == [] then []
    else
      var e := v[|v| - 1];
      IovData(mem, v[..|v| - 1]) + (if e.Guest? then mem[e.base..e.base + e.len] else GARBAGE[..e.len])
  }

  /** The bytes at a list of addresses, as far as they lie in guest memory. */
  predicate Delivers(mem: seq<byte>, addrs: seq<Option<nat>>, s: seq<byte>) {
    && |s| == |addrs|
    && forall k :: 0 <= k < |addrs| && addrs[k].Some? ==> addrs[k].value < |mem| && s[k] == mem[addrs[k].value]
  }

  lemma {:induction false} IovDelivers(mem: seq<byte>, v: seq<Iov>)
    requires forall e :: e in v ==> if e.Guest? then e.base + e.len <= |mem| else e.len <= 256
    ensures Delivers(mem, IovAddrs(v), IovData(mem, v))
  {
    if v != [] {
      var init, e := v[..|v| - 1], v[|v| - 1];
      IovDelivers(mem, init);
      var tail := if e.Guest? then mem[e.base..e.base + e.len] else GARBAGE[..e.len];
      assert Delivers(mem, EntryAddrs(e), tail);
      assert IovData(mem, v) == IovData(mem, init) + tail;
    }
  }

  /** An iovec over addresses in memory has its entries in memory. */
  lemma {:induction false} IovInMemory(mem: seq<byte>, v: seq<Iov>)
    requires forall e :: e in v ==> e.len > 0
    requires forall k :: 0 <= k < |IovAddrs(v)| && IovAddrs(v)[k].Some? ==> IovAddrs(v)[k].value < |mem|
    ensures forall e :: e in v && e.Guest? ==> e.base + e.len <= |mem|
  {
    if v != [] {
      var init, e := v[..|v| - 1], v[|v| - 1];
      assert v == init + [e];
      assert IovAddrs(v) == IovAddrs(init) + EntryAddrs(e);
      forall k | 0 <= k < |IovAddrs(init)| && IovAddrs(init)[k].Some? ensures IovAddrs(init)[k].value < |mem| {
        assert IovAddrs(v)[k] == IovAddrs(init)[k];
      }
      IovInMemory(mem, init);
      assert IovAddrs(v)[|IovAddrs(init)| + e.len - 1] == EntryAddrs(e)[e.len - 1];
    }
  }

  /** Gathering an iovec built by common_iovec gives the same slice of the message as read does. */
  lemma IovAgreesWithRead(segs: SegTable, mem: seq<byte>, w: seq<Loc>, pad: nat, v: seq<Iov>)
    requires Backed(segs, mem) && AllOk(segs, w) && IovAddrs(v) == Addrs(segs, w) + Nones(pad)
    requires forall e :: e in v ==> e.len > 0 && (e.Garbage? ==> e.len <= 256)
    ensures forall e :: e in v ==> if e.Guest? then e.base + e.len <= |mem| else e.len <= 256
    ensures |IovData(mem, v)| == |w| + pad
    ensures IovData(mem, v)[..|w|] == Held(segs, mem, w)
  {
    hide Backed, Addr, IovAddrs, IovData;
    forall k | 0 <= k < |IovAddrs(v)| && IovAddrs(v)[k].Some? ensures IovAddrs(v)[k].value < |mem| {
      AddrInMemory(segs, mem, w[k]);
    }
    IovInMemory(mem, v);
    IovDelivers(mem, v);
    var s := IovData(mem, v);
    forall k | 0 <= k < |w| ensures s[k] == Held(segs, mem, w)[k] {
      assert IovAddrs(v)[k] == Addr(segs, w[k]);
      BytesAt(segs, mem, w, k);
    }
  }

  // ----- byte by byte

  /** The part a position lies in, looking from the i-th part on. */
  function PartFrom(parts: seq<Part>, pos: nat, i: nat): (p: nat)
    requires i <= |parts| && Start(parts, i) <= pos < |Flat(parts)|
    ensures p < |parts| && Start(parts, p) <= pos < Start(parts, p + 1)
    decreases |parts| - i
  {
    StartEnd(parts);
    FlatAt(parts, i);
    if pos < Start(parts, i + 1) then i else PartFrom(parts, pos, i + 1)
  }

  function PartAt(parts: seq<Part>, pos: nat): (p: nat)
    requires pos < |Flat(parts)|
    ensures p < |parts| && Start(parts, p) <= pos < Start(parts, p + 1)
  {
    StartEnd(parts);
    PartFrom(parts, pos, 0)
  }

  lemma PartAtIs(parts: seq<Part>, pos: nat, i: nat)
    requires pos < |Flat(parts)| && i < |parts| && Start(parts, i) <= pos < Start(parts, i + 1)
    ensures PartAt(parts, pos) == i
  {
    hide Flat, Start;
    var p := PartAt(parts, pos);
    if p < i {
      StartMonotone(parts, p + 1, i);
    } else if i < p {
      StartMonotone(parts, i + 1, p);
    }
  }

  /** The end of the run of accessible parts from `pos` on; a part counts only if it is accessible to its end. */
  function Readable(segs: SegTable, parts: seq<Part>, pos: nat): (e: nat)
    requires pos <= |Flat(parts)|
    ensures pos <= e <= |Flat(parts)| && AllOk(segs, Flat(parts)[pos..e])
    decreases |Flat(parts)| - pos
  {
    var flat := Flat(parts);
    if pos == |flat| then pos
    else
      FlatAt(parts, PartAt(parts, pos));
      var next := Start(parts, PartAt(parts, pos) + 1);
      if AllOk(segs, flat[pos..next]) then
        assert forall e :: next <= e <= |flat| ==> flat[pos..e] == flat[pos..next] + flat[next..e];
        Readable(segs, parts, next)
      else pos
  }

  /** A message that is accessible throughout can be read to its end. */
  lemma {:induction false} AllReadable(segs: SegTable, parts: seq<Part>, pos: nat)
    requires pos <= |Flat(parts)| && AllOk(segs, Flat(parts))
    ensures Readable(segs, parts, pos) == |Flat(parts)|
    decreases |Flat(parts)| - pos
  {
    hide Addr;
    if pos < |Flat(parts)| {
      FlatAt(parts, PartAt(parts, pos));
      AllReadable(segs, parts, Start(parts, PartAt(parts, pos) + 1));
    }
  }

  class MsgStreamReader {
    const segs: SegTable
    const it: Iterator
    var ready: nat
    var buf: nat

    /** The bytes between `buf` and `buf + ready` are the ready ones: the message just before the iterator. */
    predicate Valid(mem: seq<byte>)
      reads this, it
    {
      && it.Valid(mem) && ready <= it.Pos() <= |Flat(it.table.Parts(mem))|
      && var flat := Flat(it.table.Parts(mem));
         forall p :: it.Pos() - ready <= p < it.Pos() ==> Addr(segs, flat[p]) == Some(buf + (p - (it.Pos() - ready)))
    }

    /** The next byte's position in the message. */
    function Pos(): int
      reads this, it
    {
      it.Pos() - ready
    }

    /** How far the stream can be read before it faults. */
    function Limit(mem: seq<byte>): nat
      requires Valid(mem)
      reads this, it
    {
      Readable(segs, it.table.Parts(mem), it.Pos())
    }

    constructor (segs: SegTable, mem: seq<byte>, table: Table, skip: nat)
      requires Backed(segs, mem) && table.Inside(mem)
      ensures Valid(mem) && this.segs == segs && it.table == table && fresh(it)
      ensures Pos() == if skip < |Flat(table.Parts(mem))| then skip else |Flat(table.Parts(mem))|
      ensures Limit(mem) == Readable(segs, table.Parts(mem), Pos())
    {
      hide Translate, Flat, Table.Parts, Table.Inside, Iterator.ValidFor, Readable;
      this.segs, ready, buf := segs, 0, 0;
      it := new Iterator(table);
      new;
      IteratorStarts(it, table.Parts(mem));
      it.SkipTo(mem, skip);
    }

    /** get_more: the rest of the current part becomes ready; false for a fault. */
    method GetMore(mem: seq<byte>) returns (ok: bool)
      requires Valid(mem) && Backed(segs, mem) && ready == 0
      modifies this, it
      ensures !ok <==> old(Pos()) == old(Limit(mem)) < |Flat(it.table.Parts(mem))|
      ensures ok ==> Valid(mem) && Pos() == old(Pos()) && Limit(mem) == old(Limit(mem))
      ensures ok ==> (ready == 0 <==> Pos() == |Flat(it.table.Parts(mem))|)
    {
      hide Translate, Backed, PartLocs, Flat, Table.Parts, Table.Inside, Iterator.ValidFor, Readable, EndsIn, Start;
      BackedIsValid(segs, mem);
      ghost var parts := it.table.Parts(mem);
      ghost var flat := Flat(parts);
      ghost var pos := it.Pos();
      var slice := it.Next(mem, 0xFFFF_FFFF_FFFF_FFFF);
      if slice.len == 0 {
        ReadableAtEnd(segs, parts);
        return true;
      }
      RestOfPart(segs, parts, it.i, pos, slice);
      var src := Translate(segs, slice.seg, slice.off, slice.len);
      if src.None? {
        return false;
      }
      SliceAddrs(segs, flat, pos, slice);
      buf, ready := src.value, slice.len;
      return true;
    }

    /**
     The byte at the current position, one further each time, and the fallback for ever after the
     end; None for a fault, exactly when the part that comes next is not accessible to its end.
     */
    method Get(mem: seq<byte>, fallback: byte) returns (r: Option<byte>)
      requires Valid(mem) && Backed(segs, mem)
      modifies this, it
      ensures r.None? <==> old(Pos()) == old(Limit(mem)) < |Flat(it.table.Parts(mem))|
      ensures r.Some? ==> Valid(mem) && Limit(mem) == old(Limit(mem))
      ensures r.Some? ==> var flat := Flat(it.table.Parts(mem));
        if old(Pos()) == |flat| then r.value == fallback && Pos() == old(Pos())
        else Pos() == old(Pos()) + 1 && ByteAt(segs, mem, flat[old(Pos())], r.value)
    {
      hide Translate, Addr, Flat, Table.Parts, Table.Inside, Iterator.ValidFor, Backed, Readable;
      ghost var flat := Flat(it.table.Parts(mem));
      if ready == 0 {
        var ok := GetMore(mem);
        if !ok {
          return None;
        }
      }
      if ready == 0 {
        return Some(fallback);
      }
      assert Addr(segs, flat[it.Pos() - ready]) == Some(buf);
      AddrInMemory(segs, mem, flat[it.Pos() - ready]);
      ready := ready - 1;
      r := Some(mem[buf]);
      buf := buf + 1;
    }
  }

  predicate ByteAt(segs: SegTable, mem: seq<byte>, l: Loc, b: byte) {
    var a := Addr(segs, l);
    a.Some? && a.value < |mem| && mem[a.value] == b
  }

  lemma ReadableAtEnd(segs: SegTable, parts: seq<Part>)
    ensures Readable(segs, parts, |Flat(parts)|) == |Flat(parts)|
  {
  }

  /** The rest of a part is readable exactly when it translates as one slice. */
  lemma RestOfPart(segs: SegTable, parts: seq<Part>, i: nat, pos: nat, slice: Part)
    requires ValidTable(segs) && i < |parts| && slice.len > 0 && EndsIn(parts, i, pos, slice.len, 0xFFFF_FFFF_FFFF_FFFF)
    requires pos + slice.len <= |Flat(parts)| && Flat(parts)[pos..pos + slice.len] == PartLocs(slice)
    ensures if Translate(segs, slice.seg, slice.off, slice.len).Some?
      then Readable(segs, parts, pos) == Readable(segs, parts, pos + slice.len)
      else Readable(segs, parts, pos) == pos
  {
    hide Flat, Start, Translate, PartLocs, ValidTable, AllOk;
    RangeOk(segs, slice);
    PartAtIs(parts, pos, i);
  }

  lemma SliceAddrs(segs: SegTable, flat: seq<Loc>, pos: nat, slice: Part)
    requires ValidTable(segs) && slice.len > 0 && Translate(segs, slice.seg, slice.off, slice.len).Some?
    requires pos + slice.len <= |flat| && flat[pos..pos + slice.len] == PartLocs(slice)
    ensures forall p :: pos <= p < pos + slice.len ==>
      Addr(segs, flat[p]) == Some(Translate(segs, slice.seg, slice.off, slice.len).value + (p - pos))
  {
    hide Translate, Addr, ValidTable, PartLocs;
    RangeOkIsEach(segs, slice);
    forall p | pos <= p < pos + slice.len
      ensures Addr(segs, flat[p]) == Some(Translate(segs, slice.seg, slice.off, slice.len).value + (p - pos))
    {
      assert flat[p] == flat[pos..pos + slice.len][p - pos] == PartLocs(slice)[p - pos];
    }
  }
}
