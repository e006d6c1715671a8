/**
 A QNX memory segment: a reserved address range that is filled page by page, with a
 bitmap of the pages that were really mapped and a byte-precise limit
 (src/segment.cpp, src/segment.h, src/mem_ops.h), and the translation of segmented
 pointers through it (Process::translate_segmented in src/process.cpp).
 */
module Segments {
  import opened Words

  const PAGE_SIZE: nat := 4096

  /** The least multiple of the page size that is not below `v`. */
  function AlignPageUp(v: nat): (r: nat)
    ensures v <= r < v + PAGE_SIZE && r % PAGE_SIZE == 0
  {
    if v % PAGE_SIZE == 0 then v else (v / PAGE_SIZE + 1) * PAGE_SIZE
  }

  function AlignUp16(v: nat): (r: nat)
    ensures v <= r < v + 16 && r % 16 == 0
  {
    if v % 16 == 0 then v else (v / 16 + 1) * 16
  }

  /** The fields of a Segment. Reservations come from mmap with MAP_32BIT, so below 2^31. */
  datatype Seg = Seg(location: nat, pagedSize: nat, limitSize: nat, reserved: nat, shared: bool, bitmap: seq<bool>)
  {
    predicate Valid() {
      && pagedSize == PAGE_SIZE * |bitmap|
      && limitSize <= pagedSize <= reserved <= 0x8000_0000
      && reserved % PAGE_SIZE == 0
    }

    predicate PageMapped(p: nat) {
      p < |bitmap| && bitmap[p]
    }

    /** The page holding byte `b` was mapped. */
    predicate Mapped(b: nat) {
      PageMapped(b / PAGE_SIZE)
    }

    /** Segment::check_bounds: every page from the first to the last one of the range. */
    predicate CheckBounds(offset: nat, size: nat) {
      && offset < pagedSize && size <= pagedSize - offset
      && forall p :: offset / PAGE_SIZE <= p < AlignPageUp(offset + size) / PAGE_SIZE ==> PageMapped(p)
    }
  }

  /** `check_bounds` accepts a non-empty range exactly when each of its bytes lies in a mapped page. */
  lemma CheckBoundsExact(s: Seg, offset: nat, size: nat)
    requires s.Valid() && size > 0
    ensures s.CheckBounds(offset, size) <==> forall b :: offset <= b < offset + size ==> s.Mapped(b)
  {
    if s.CheckBounds(offset, size) {
      forall b | offset <= b < offset + size ensures s.Mapped(b) {
        assert offset / PAGE_SIZE <= b / PAGE_SIZE < AlignPageUp(offset + size) / PAGE_SIZE;
      }
    }
    if forall b :: offset <= b < offset + size ==> s.Mapped(b) {
      assert s.Mapped(offset) && s.Mapped(offset + size - 1);
      forall p | offset / PAGE_SIZE <= p < AlignPageUp(offset + size) / PAGE_SIZE
        ensures s.PageMapped(p)
      {
        var b := if p == offset / PAGE_SIZE then offset else p * PAGE_SIZE;
        assert s.Mapped(b) && b / PAGE_SIZE == p;
      }
    }
  }

  /** The empty range is accepted below the paged size unless it falls strictly inside an unmapped page. */
  lemma CheckBoundsEmpty(s: Seg, offset: nat)
    requires s.Valid()
    ensures s.CheckBounds(offset, 0) <==> offset < s.pagedSize && (offset % PAGE_SIZE != 0 ==> s.Mapped(offset))
  {
  }

  // ----- growth, as functions on the fields; None is std::bad_alloc

  function Pages(n: nat, present: bool): (r: seq<bool>)
    ensures |r| == n && forall i :: 0 <= i < n ==> r[i] == present
  {
    seq(n, _ => present)
  }

  /** grow_paged_internal; `host` says whether mmap succeeds, which it never does for an empty range. */
  function AddPages(s: Seg, size: nat, host: bool): Option<Seg>
  {
    if size + s.pagedSize > s.reserved || size == 0 || !host then None
    else Some(s.(bitmap := s.bitmap + Pages(size / PAGE_SIZE, true), pagedSize := s.pagedSize + size))
  }

  function SkipPages(s: Seg, size: nat): Option<Seg>
  {
    if size + s.pagedSize > s.reserved then None
    else Some(s.(bitmap := s.bitmap + Pages(size / PAGE_SIZE, false), pagedSize := s.pagedSize + size))
  }

  function GrowPaged(s: Seg, size: nat, host: bool): Option<Seg>
  {
    match AddPages(s, size, host)
    case None => None
    case Some(t) => Some(t.(limitSize := t.pagedSize))
  }

  function GrowBytes(s: Seg, size: nat, host: bool): Option<Seg>
    requires s.Valid()
  {
    if size + s.limitSize > s.reserved then None
    else if size + s.limitSize > s.pagedSize then
      match AddPages(s, AlignPageUp(size + s.limitSize) - s.pagedSize, host)
      case None => None
      case Some(t) => Some(t.(limitSize := s.limitSize + size))
    else Some(s.(limitSize := s.limitSize + size))
  }

  /** Growth leaves the old pages as they were and maps all new ones. */
  ghost predicate NewPagesMapped(s: Seg, t: Seg) {
    forall p: nat :: t.PageMapped(p) <==> s.PageMapped(p) || |s.bitmap| <= p < |t.bitmap|
  }

  /**
   Growth by bytes succeeds exactly when the reservation suffices and, if new pages are needed, the
   host maps them; the limit rises by the size, the pages just cover it.
   */
  lemma GrowBytesExact(s: Seg, n: nat, host: bool)
    requires s.Valid()
    ensures GrowBytes(s, n, host).Some? <==>
      s.limitSize + n <= s.reserved && (s.limitSize + n <= s.pagedSize || host)
    ensures GrowBytes(s, n, host).Some? ==>
      var t := GrowBytes(s, n, host).value;
      && t.limitSize == s.limitSize + n && NewPagesMapped(s, t)
      && t.pagedSize == (if s.limitSize + n <= s.pagedSize then s.pagedSize else AlignPageUp(s.limitSize + n))
      && t.location == s.location && t.reserved == s.reserved && t.shared == s.shared
  {
    if s.pagedSize < s.limitSize + n <= s.reserved {
      AlignedWithin(s.limitSize + n, s.reserved);
    }
  }

  lemma AlignedWithin(v: nat, bound: nat)
    requires v <= bound && bound % PAGE_SIZE == 0
    ensures AlignPageUp(v) <= bound
  {
  }

  /** Growth by pages succeeds exactly when there are some, the reservation suffices and the host maps them. */
  lemma GrowPagedExact(s: Seg, n: nat, host: bool)
    requires s.Valid() && n % PAGE_SIZE == 0
    ensures GrowPaged(s, n, host).Some? <==> n > 0 && s.pagedSize + n <= s.reserved && host
    ensures GrowPaged(s, n, host).Some? ==>
      var t := GrowPaged(s, n, host).value;
      && t.limitSize == t.pagedSize == s.pagedSize + n && NewPagesMapped(s, t)
      && t.location == s.location && t.reserved == s.reserved && t.shared == s.shared
  {
  }

  /** Skipping succeeds exactly when the reservation suffices; it maps nothing and leaves the limit. */
  lemma SkipExact(s: Seg, n: nat)
    requires s.Valid() && n % PAGE_SIZE == 0
    ensures SkipPages(s, n).Some? <==> s.pagedSize + n <= s.reserved
    ensures SkipPages(s, n).Some? ==>
      var t := SkipPages(s, n).value;
      && t.pagedSize == s.pagedSize + n && t.limitSize == s.limitSize
      && (forall p: nat :: t.PageMapped(p) <==> s.PageMapped(p))
      && t.location == s.location && t.reserved == s.reserved && t.shared == s.shared
  {
  }

  /** By how much a growth of n bytes raises the limit when it stops at 64 KiB. */
  function CappedGrowth(s: Seg, n: nat): nat {
    var newSize := if s.limitSize + n < 0x1_0000 then s.limitSize + n else 0x1_0000;
    if newSize > s.limitSize then newSize - s.limitSize else 0
  }

  /** The limit rises by n bytes but not beyond 64 KiB, and never falls. */
  lemma CappedGrowthExact(s: Seg, n: nat)
    ensures var limit := s.limitSize + CappedGrowth(s, n);
      && s.limitSize <= limit <= s.limitSize + n
      && (s.limitSize <= 0x1_0000 ==> limit <= 0x1_0000)
      && (limit < s.limitSize + n ==> limit >= 0x1_0000)
  {
  }

  datatype Growth =
    | Bytes(size: nat, host: bool)
    | Bytes64Capped(size: nat, host: bool)
    | Paged(size: nat, host: bool)
    | Skip(size: nat)
  {
    /** Page-granular calls assert that their size is page aligned. */
    predicate Allowed() { (Paged? || Skip?) ==> size % PAGE_SIZE == 0 }
  }

  /** The segment after one call; a call that throws leaves it as it was. */
  function Apply(s: Seg, g: Growth): (t: Seg)
    requires s.Valid() && g.Allowed()
  {
    var r := match g
      case Bytes(n, h) => GrowBytes(s, n, h)
      case Bytes64Capped(n, h) => if CappedGrowth(s, n) > 0 then GrowBytes(s, CappedGrowth(s, n), h) else Some(s)
      case Paged(n, h) => GrowPaged(s, n, h)
      case Skip(n) => SkipPages(s, n);
    match r case None => s case Some(t) => t
  }

  /** `t` is a later state of the segment `s`: same place, same pages, possibly more of them. */
  predicate Extends(s: Seg, t: Seg) {
    && t.location == s.location && t.reserved == s.reserved && t.shared == s.shared
    && s.bitmap <= t.bitmap && s.limitSize <= t.limitSize && s.pagedSize <= t.pagedSize
  }

  lemma ApplyExtends(s: Seg, g: Growth)
    requires s.Valid() && g.Allowed()
    ensures Apply(s, g).Valid() && Extends(s, Apply(s, g))
  {
    hide GrowBytes;
    match g
    case Bytes(n, h) => GrowBytesExtends(s, n, h);
    case Bytes64Capped(n, h) =>
      if CappedGrowth(s, n) > 0 {
        GrowBytesExtends(s, CappedGrowth(s, n), h);
      }
    case Paged(_, _) =>
    case Skip(_) =>
  }

  lemma GrowBytesExtends(s: Seg, n: nat, host: bool)
    requires s.Valid()
    ensures GrowBytes(s, n, host).Some? ==> GrowBytes(s, n, host).value.Valid() && Extends(s, GrowBytes(s, n, host).value)
  {
  }

  /** Growth keeps every accepted range accepted. */
  lemma ExtendsKeepsBounds(s: Seg, t: Seg, offset: nat, size: nat)
    requires Extends(s, t) && s.CheckBounds(offset, size)
    ensures t.CheckBounds(offset, size)
  {
    forall p | offset / PAGE_SIZE <= p < AlignPageUp(offset + size) / PAGE_SIZE
      ensures t.PageMapped(p)
    {
      assert s.PageMapped(p);
    }
  }

  function RunGrowth(s: Seg, gs: seq<Growth>): Seg
    requires s.Valid() && forall i :: 0 <= i < |gs| ==> gs[i].Allowed()
    decreases |gs|
  {
    if gs == [] then s else ApplyExtends(s, gs[0]); RunGrowth(Apply(s, gs[0]), gs[1..])
  }

  /**
   Over every sequence of growth calls, failed ones included: the bitmap, the sizes and the
   reservation stay consistent, a range once accepted by check_bounds stays accepted, and it
   keeps its address.
   */
  lemma {:induction false} RunGrowthSound(s: Seg, gs: seq<Growth>, offset: nat, size: nat)
    requires s.Valid() && forall i :: 0 <= i < |gs| ==> gs[i].Allowed()
    ensures RunGrowth(s, gs).Valid() && Extends(s, RunGrowth(s, gs))
    ensures s.CheckBounds(offset, size) ==> RunGrowth(s, gs).CheckBounds(offset, size)
    decreases |gs|
  {
    if gs == [] {
    } else {
      var t := Apply(s, gs[0]);
      ApplyExtends(s, gs[0]);
      if s.CheckBounds(offset, size) {
        ExtendsKeepsBounds(s, t, offset, size);
      }
      RunGrowthSound(t, gs[1..], offset, size);
    }
  }

  // ----- the object

  class Segment {
    var location: nat
    var pagedSize: nat
    var limitSize: nat
    var reserved: nat
    var shared: bool
    var bitmap: seq<bool>
    /** What the pages hold; mmap fills new ones with zeros. */
    var data: seq<byte>

    function State(): Seg
      reads this
    {
      Seg(location, pagedSize, limitSize, reserved, shared, bitmap)
    }

    predicate Valid()
      reads this
    {
      State().Valid() && |data| == pagedSize
    }

    constructor ()
      ensures Valid() && State() == Seg(0, 0, 0, 0, false, [])
    {
      location, pagedSize, limitSize, reserved, shared, bitmap, data := 0, 0, 0, 0, false, [], [];
    }

    /** `place` is what mmap answered for the rounded reservation; with MAP_32BIT it has no more than 2^31 bytes to give. */
    method Reserve(reservation: nat, place: Option<nat>) returns (ok: bool)
      requires Valid() && reserved == 0 && (place.Some? ==> AlignPageUp(reservation) <= 0x8000_0000)
      modifies this
      ensures Valid() && ok == place.Some?
      ensures ok ==> State() == Seg(place.value, 0, 0, AlignPageUp(reservation), old(shared), [])
      ensures !ok ==> State() == old(State())
    {
      ok := place.Some?;
      if ok {
        location, pagedSize, reserved := place.value, 0, AlignPageUp(reservation);
      }
    }

    method GrowPagedInternal(size: nat, host: bool) returns (ok: bool)
      requires Valid() && size % PAGE_SIZE == 0
      modifies this
      ensures Valid()
      ensures ok == AddPages(old(State()), size, host).Some?
      ensures ok ==> State() == AddPages(old(State()), size, host).value
      ensures ok ==> data == old(data) + seq(size, _ => 0)
      ensures !ok ==> State() == old(State()) && data == old(data)
    {
      if size + pagedSize > reserved || size == 0 || !host {
        return false;
      }
      var i := 0;
      while i < size / PAGE_SIZE
        invariant 0 <= i <= size / PAGE_SIZE
        invariant State() == old(State()).(bitmap := old(bitmap) + Pages(i, true)) && data == old(data)
      {
        bitmap := bitmap + [true];
        i := i + 1;
      }
      data := data + seq(size, _ => 0);
      pagedSize := pagedSize + size;
      return true;
    }

    method SkipPaged(size: nat) returns (ok: bool)
      requires Valid() && size % PAGE_SIZE == 0
      modifies this
      ensures Valid()
      ensures ok == SkipPages(old(State()), size).Some?
      ensures State() == Apply(old(State()), Skip(size))
      ensures old(data) <= data
    {
      if size + pagedSize > reserved {
        return false;
      }
      var i := 0;
      while i < size / PAGE_SIZE
        invariant 0 <= i <= size / PAGE_SIZE
        invariant State() == old(State()).(bitmap := old(bitmap) + Pages(i, false)) && data == old(data)
      {
        bitmap := bitmap + [false];
        i := i + 1;
      }
      data := data + seq(size, _ => 0);
      pagedSize := pagedSize + size;
      return true;
    }

    method GrowPages(size: nat, host: bool) returns (ok: bool)
      requires Valid() && size % PAGE_SIZE == 0
      modifies this
      ensures Valid()
      ensures ok == GrowPaged(old(State()), size, host).Some?
      ensures State() == Apply(old(State()), Paged(size, host))
      ensures old(data) <= data
    {
      ok := GrowPagedInternal(size, host);
      if ok {
        limitSize := pagedSize;
      }
    }

    method Grow(size: nat, host: bool) returns (ok: bool)
      requires Valid()
      modifies this
      ensures Valid()
      ensures ok == GrowBytes(old(State()), size, host).Some?
      ensures ok <==> old(limitSize) + size <= reserved && (old(limitSize) + size <= old(pagedSize) || host)
      ensures State() == Apply(old(State()), Bytes(size, host))
      ensures old(data) <= data
    {
      GrowBytesExact(State(), size, host);
      if size + limitSize > reserved {
        return false;
      }
      if size + limitSize > pagedSize {
        ok := GrowPagedInternal(AlignPageUp(size + limitSize) - pagedSize, host);
        if !ok {
          return;
        }
      }
      limitSize := limitSize + size;
      return true;
    }

    method Grow64Capped(size: nat, host: bool) returns (ok: bool)
      requires Valid()
      modifies this
      ensures Valid()
      ensures State() == Apply(old(State()), Bytes64Capped(size, host))
      ensures old(data) <= data
      ensures ok == (CappedGrowth(old(State()), size) == 0
                     || GrowBytes(old(State()), CappedGrowth(old(State()), size), host).Some?)
      ensures ok ==> limitSize >= old(limitSize) && (limitSize >= 0x1_0000 || limitSize == old(limitSize) + size)
      ensures !ok ==> State() == old(State())
    {
      var newSize := if limitSize + size < 0x1_0000 then limitSize + size else 0x1_0000;
      ok := true;
      if newSize > limitSize {
        ok := Grow(newSize - limitSize, host);
      }
    }

    method CheckRange(offset: nat, size: nat) returns (ok: bool)
      requires Valid()
      ensures ok == State().CheckBounds(offset, size)
    {
      if !(offset < pagedSize && size <= pagedSize - offset) {
        return false;
      }
      ok := true;
      var p := offset / PAGE_SIZE;
      var end := AlignPageUp(offset + size) / PAGE_SIZE;
      while p < end
        invariant offset / PAGE_SIZE <= p <= end <= |bitmap|
        invariant ok <==> forall q :: offset / PAGE_SIZE <= q < p ==> State().PageMapped(q)
      {
        assert State().PageMapped(p) <==> bitmap[p];
        ok := ok && bitmap[p];
        p := p + 1;
      }
    }
  }

  // ----- segmented pointers

  /** Live descriptors by id; a selector carries the id in its upper 13 bits. */
  type SegTable = map<nat, Seg>

  function SelectorId(sel: u16): nat { sel / 8 }

  /** mk_sel: LDT bit and ring 3. */
  function MakeSelector(id: nat): (sel: nat)
    ensures sel / 8 == id && sel / 4 % 2 == 1 && sel % 4 == 3
  {
    id * 8 + 4 + 3
  }

  predicate ValidTable(segs: SegTable) {
    forall id :: id in segs ==> segs[id].Valid()
  }

  /** translate_segmented: the linear address of the range, or None for a SegmentationFault. */
  function Translate(segs: SegTable, sel: u16, offset: u32, size: nat): Option<nat> {
    var id := SelectorId(sel);
    if id in segs && segs[id].CheckBounds(offset, size) then Some(segs[id].location + offset) else None
  }

  /** All segments lie inside the linear memory `mem`. */
  predicate Backed(segs: SegTable, mem: seq<byte>) {
    && ValidTable(segs)
    && forall id :: id in segs ==> segs[id].location + segs[id].pagedSize <= |mem|
  }

  lemma BackedIsValid(segs: SegTable, mem: seq<byte>)
    requires Backed(segs, mem)
    ensures ValidTable(segs)
  {
  }

  lemma TranslateBacked(segs: SegTable, mem: seq<byte>, sel: u16, offset: u32, size: nat)
    requires Backed(segs, mem) && Translate(segs, sel, offset, size).Some?
    ensures Translate(segs, sel, offset, size).value + size <= |mem|
    ensures offset + size <= 0x8000_0000
  {
  }

  /** Inside a range that translates, every sub-range translates, to the matching address. */
  lemma TranslateInside(segs: SegTable, sel: u16, offset: u32, size: nat, lo: u32, n: nat)
    requires ValidTable(segs)
    requires Translate(segs, sel, offset, size).Some?
    requires offset <= lo && lo + n <= offset + size && n > 0
    ensures Translate(segs, sel, lo, n) == Some(Translate(segs, sel, offset, size).value + (lo - offset))
  {
  }

  /** Two adjacent ranges that translate, translate as one. */
  lemma TranslateJoin(segs: SegTable, sel: u16, lo: u32, n: nat, m: nat)
    requires ValidTable(segs) && n > 0 && m > 0 && lo + n < 0x1_0000_0000
    requires Translate(segs, sel, lo, n).Some? && Translate(segs, sel, lo + n, m).Some?
    ensures Translate(segs, sel, lo, n + m) == Translate(segs, sel, lo, n)
  {
  }
}
