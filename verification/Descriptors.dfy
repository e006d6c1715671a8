/**
 Segment descriptors and the LDT (src/segment_descriptor.cpp), over runs of the guest's segment
 requests (src/main_handler.cpp, src/process.cpp). Segments are named by their index: descriptors
 that share a segment hold the same index.
 */
module Descriptors {
  import opened Words
  import opened Segments
  import opened IdMaps

  const MAX_DESCRIPTORS: nat := 1024
  const KILO64: nat := 0x1_0000
  const MEGA: nat := 0x10_0000

  datatype Access = READ_WRITE | READ_ONLY | EXEC_READ | EXEC_ONLY

  function AccessOf(flags: nat): Access {
    match flags % 4
    case 0 => READ_WRITE
    case 1 => READ_ONLY
    case 2 => EXEC_READ
    case _ => EXEC_ONLY
  }

  datatype Descriptor = Descriptor(id: nat, access: Access, seg: nat, bits: Bitness)

  /** A hardware descriptor: a 20-bit limit in bytes or in pages (section 3.4.5 of the Intel SDM, volume 3A). */
  datatype LdtEntry = LdtEntry(base: nat, limit: nat, limitInPages: bool, seg32: bool, code: bool, readExecOnly: bool)
  {
    /** Bytes from the base that the entry lets through. */
    function Extent(): nat { if limitInPages then (limit + 1) * PAGE_SIZE else limit + 1 }

    predicate Readable() { !(code && readExecOnly) }

    predicate Writable() { !code && !readExecOnly }
  }

  /** The limit field keeps 20 bits of what it is given; 0 - 1 is all ones. */
  function Limit20(x: int): nat { x % 0x10_0000 }

  /** update_descriptors */
  function EntryFor(d: Descriptor, s: Seg): LdtEntry {
    var big := s.limitSize > KILO64;
    LdtEntry(
      s.location,
      Limit20(if big then AlignPageUp(s.limitSize) / PAGE_SIZE - 1 else (s.pagedSize as int) - 1),
      big,
      d.bits == B32,
      d.access == EXEC_ONLY || d.access == EXEC_READ,
      d.access == EXEC_ONLY || d.access == READ_ONLY)
  }

  /** The entry reaches no further than the segment's pages. */
  predicate Fits(e: LdtEntry, s: Seg) { e.base == s.location && e.Extent() <= s.pagedSize }

  /** Segments that only grew by bytes, or by whole pages with the limit moved along. */
  predicate Tight(s: Seg) { s.Valid() && s.pagedSize == AlignPageUp(s.limitSize) }

  /**
   An update installs an entry within the segment's pages exactly when the segment is not empty;
   an empty segment gets an entry of 2^20 bytes. The entry allows what the access says.
   */
  lemma UpdateFits(d: Descriptor, s: Seg)
    requires Tight(s)
    ensures Fits(EntryFor(d, s), s) <==> s.limitSize > 0
    ensures s.limitSize > 0 ==> EntryFor(d, s).Extent() >= s.limitSize
    ensures s.limitSize == 0 ==> EntryFor(d, s).Extent() == 0x10_0000
    ensures EntryFor(d, s).Readable() <==> d.access != EXEC_ONLY
    ensures EntryFor(d, s).Writable() <==> d.access == READ_WRITE
    ensures EntryFor(d, s).code <==> d.access == EXEC_READ || d.access == EXEC_ONLY
    ensures EntryFor(d, s).base == s.location && (EntryFor(d, s).seg32 <==> d.bits == B32)
  {
  }

  /** The entry of a segment of no bytes reaches 2^20 bytes beyond its base. */
  lemma EmptyEntryReaches()
    ensures var s := Seg(0x1000, 0, 0, MEGA, false, []);
      && Tight(s)
      && EntryFor(Descriptor(0, READ_WRITE, 0, B32), s) == LdtEntry(0x1000, 0xF_FFFF, false, true, false, false)
      && !Fits(EntryFor(Descriptor(0, READ_WRITE, 0, B32), s), s)
  {
  }

  // ----- the process's segments, descriptors and LDT

  datatype Proc = Proc(segs: seq<Seg>, descs: map<nat, Descriptor>, ldt: map<nat, LdtEntry>)

  predicate Covered(e: LdtEntry, segs: seq<Seg>) { exists k :: 0 <= k < |segs| && Fits(e, segs[k]) }

  predicate WellFormed(p: Proc) {
    && (forall k :: 0 <= k < |p.segs| ==> Tight(p.segs[k]) && p.segs[k].Valid())
    && (forall id :: id in p.descs ==>
          id < MAX_DESCRIPTORS && p.descs[id].id == id && p.descs[id].seg < |p.segs| && id in p.ldt)
  }

  /** Every segment is non-empty and no LDT entry reaches beyond the pages of its segment. */
  predicate Inv(p: Proc) {
    && WellFormed(p)
    && (forall k :: 0 <= k < |p.segs| ==> p.segs[k].limitSize > 0)
    && (forall id :: id in p.descs ==> Fits(p.ldt[id], p.segs[p.descs[id].seg]))
    && (forall id :: id in p.ldt ==> Covered(p.ldt[id], p.segs))
  }

  // ----- requests

  datatype Request =
    | Alloc(nbytes: u32, bits: Bitness, place: Option<nat>, host: bool)
    | Share(seg: nat, access: Access, bits: Bitness)
    | Realloc(sel: u16, nbytes: u32, host: bool)
    | FreeSel(sel: u16)
    | Flags(sel: u16, flags: u16)
    | MakeShared(seg: nat)

  /** 16-bit programs pass a size of 17 bits. */
  function AllocBytes(nbytes: u32, bits: Bitness): nat { if bits == B16 then nbytes % 0x2_0000 else nbytes }

  /** A 32-bit program's size is taken as it is, of a 16-bit program's the lowest 17 bits. */
  lemma AllocBytesExact(n: u32, bits: Bitness)
    ensures bits == B32 ==> AllocBytes(n, bits) == n
    ensures bits == B16 ==> AllocBytes(n, bits) < 0x2_0000 && ((n as int) - AllocBytes(n, bits)) % 0x2_0000 == 0
  {
  }

  /** A new segment, reserved and grown; None for std::bad_alloc. */
  function NewSegment(n: nat, place: Option<nat>, host: bool): Option<Seg> {
    if place.None? then None else GrowBytes(Seg(place.value, 0, 0, MEGA, false, []), n, host)
  }

  /** A new descriptor at the lowest free id, installed in the LDT; None when all ids are taken. */
  function AddDescriptor(p: Proc, access: Access, seg: nat, bits: Bitness): Option<Proc>
    requires seg < |p.segs|
  {
    match LowestFree(p.descs.Keys, 0, MAX_DESCRIPTORS)
    case None => None
    case Some(id) =>
      var d := Descriptor(id, access, seg, bits);
      Some(p.(descs := p.descs[id := d], ldt := p.ldt[id := EntryFor(d, p.segs[seg])]))
  }

  datatype Status = EOK | EINVAL | EBUSY | BAD_ALLOC

  datatype Reply = Reply(status: Status, p: Proc)

  function DoAlloc(p: Proc, nbytes: u32, bits: Bitness, place: Option<nat>, host: bool): Reply {
    match NewSegment(AllocBytes(nbytes, bits), place, host)
    case None => Reply(BAD_ALLOC, p)
    case Some(s) =>
      match AddDescriptor(p.(segs := p.segs + [s]), READ_WRITE, |p.segs|, bits)
      case None => Reply(BAD_ALLOC, p)
      case Some(q) => Reply(EOK, q)
  }

  /** Only the descriptor of the request is updated; others on the same segment go stale. */
  function DoRealloc(p: Proc, sel: u16, nbytes: u32, host: bool): Reply
    requires WellFormed(p)
  {
    var id := SelectorId(sel);
    if id !in p.descs then Reply(EINVAL, p)
    else
      var d := p.descs[id];
      var s := p.segs[d.seg];
      if s.shared then Reply(EBUSY, p)
      else if s.limitSize < nbytes then
        match GrowBytes(s, nbytes - s.limitSize, host)
        case None => Reply(BAD_ALLOC, p)
        case Some(t) => Reply(EOK, p.(segs := p.segs[d.seg := t], ldt := p.ldt[id := EntryFor(d, t)]))
      else Reply(EOK, p)
  }

  /** The descriptor goes, its LDT entry and its segment stay. */
  function DoFree(p: Proc, sel: u16): Reply {
    var id := SelectorId(sel);
    if id !in p.descs then Reply(EINVAL, p) else Reply(EOK, p.(descs := p.descs - {p.descs[id].id}))
  }

  function DoFlags(p: Proc, sel: u16, flags: u16): Reply
    requires WellFormed(p)
  {
    var id := SelectorId(sel);
    if id !in p.descs then Reply(EINVAL, p)
    else
      var d := p.descs[id].(access := AccessOf(flags));
      Reply(EOK, p.(descs := p.descs[id := d], ldt := p.ldt[id := EntryFor(d, p.segs[d.seg])]))
  }

  /** Sharing names a segment that exists. */
  predicate Allowed(p: Proc, r: Request) {
    match r
    case Share(k, _, _) => k < |p.segs|
    case MakeShared(k) => k < |p.segs|
    case _ => true
  }

  /** The request does not make an empty segment. */
  predicate NonEmpty(r: Request) { r.Alloc? ==> AllocBytes(r.nbytes, r.bits) > 0 }

  function Perform(p: Proc, r: Request): Reply
    requires WellFormed(p) && Allowed(p, r)
  {
    match r
    case Alloc(n, bits, place, host) => DoAlloc(p, n, bits, place, host)
    case Share(k, access, bits) =>
      (match AddDescriptor(p, access, k, bits) case None => Reply(BAD_ALLOC, p) case Some(q) => Reply(EOK, q))
    case Realloc(sel, n, host) => DoRealloc(p, sel, n, host)
    case FreeSel(sel) => DoFree(p, sel)
    case Flags(sel, flags) => DoFlags(p, sel, flags)
    case MakeShared(k) => Reply(EOK, p.(segs := p.segs[k := p.segs[k].(shared := true)]))
  }

  // ----- what every request does

  predicate SameBut<T(==)>(m: map<nat, T>, m': map<nat, T>, id: nat) {
    m' - {id} == m - {id}
  }

  /**
   An allocation succeeds exactly when the host gives a place, the size fits one megabyte, the host
   maps it, and an id is free. The new segment then has that size, the lowest free id leads to it
   with read and write access in the program's bitness, and nothing else changed.
   */
  lemma AllocEffect(p: Proc, nbytes: u32, bits: Bitness, place: Option<nat>, host: bool)
    requires WellFormed(p)
    ensures var (n, id, r) := (AllocBytes(nbytes, bits), LowestFree(p.descs.Keys, 0, MAX_DESCRIPTORS), DoAlloc(p, nbytes, bits, place, host));
      && (r.status == EOK <==> place.Some? && n <= MEGA && (n == 0 || host) && id.Some?)
      && (r.status != EOK ==> r == Reply(BAD_ALLOC, p))
      && (r.status == EOK ==>
            && |r.p.segs| == |p.segs| + 1 && r.p.segs[..|p.segs|] == p.segs
            && SameBut(p.descs, r.p.descs, id.value) && SameBut(p.ldt, r.p.ldt, id.value)
            && id.value in r.p.descs && r.p.descs[id.value] == Descriptor(id.value, READ_WRITE, |p.segs|, bits)
            && id.value in r.p.ldt && r.p.ldt[id.value].Writable()
            && (r.p.ldt[id.value].seg32 <==> bits == B32)
            && var s := r.p.segs[|p.segs|];
               && s.location == place.value && s.limitSize == n && !s.shared
               && (n > 0 ==> Fits(r.p.ldt[id.value], s) && r.p.ldt[id.value].Extent() >= n))
  {
    hide GrowBytes, EntryFor, Fits, Tight, Seg.Valid, LowestFree, WellFormed, LdtEntry.Extent, LdtEntry.Writable;
    var n := AllocBytes(nbytes, bits);
    NewSegmentExact(n, place, host);
    if NewSegment(n, place, host).Some? {
      NewSegmentTight(n, place, host);
      UpdateFits(Descriptor(0, READ_WRITE, |p.segs|, bits), NewSegment(n, place, host).value);
      EntryIgnoresId(0, READ_WRITE, |p.segs|, bits, NewSegment(n, place, host).value);
    }
  }

  lemma NewSegmentExact(n: nat, place: Option<nat>, host: bool)
    ensures NewSegment(n, place, host).Some? <==> place.Some? && n <= MEGA && (n == 0 || host)
    ensures NewSegment(n, place, host).Some? ==>
      var s := NewSegment(n, place, host).value; s.location == place.value && s.limitSize == n && !s.shared
  {
    hide GrowBytes;
    if place.Some? {
      GrowBytesExact(Seg(place.value, 0, 0, MEGA, false, []), n, host);
    }
  }

  lemma EntryIgnoresId(id: nat, access: Access, seg: nat, bits: Bitness, s: Seg)
    ensures forall id': nat :: EntryFor(Descriptor(id', access, seg, bits), s) == EntryFor(Descriptor(id, access, seg, bits), s)
  {
  }

  /** A release fails exactly for a selector that is not in use; else the descriptor is gone, all else stays. */
  lemma FreeEffect(p: Proc, sel: u16)
    requires WellFormed(p)
    ensures var (id, r) := (SelectorId(sel), DoFree(p, sel));
      if id in p.descs
      then r.status == EOK && r.p.descs == p.descs - {id} && id !in r.p.descs && r.p.segs == p.segs && r.p.ldt == p.ldt
      else r == Reply(EINVAL, p)
  {
    hide Tight, Seg.Valid;
  }

  /** A change of flags gives the entry the access of the two lowest bits: bit 1 for code, bit 0 for less access. */
  lemma FlagsEffect(p: Proc, sel: u16, flags: u16)
    requires WellFormed(p)
    ensures var (id, r) := (SelectorId(sel), DoFlags(p, sel, flags));
      if id !in p.descs then r == Reply(EINVAL, p)
      else
        && r.status == EOK && r.p.segs == p.segs && id in r.p.descs && id in r.p.ldt
        && r.p.descs[id].seg == p.descs[id].seg && r.p.descs[id].bits == p.descs[id].bits && r.p.descs[id].id == id
        && (r.p.ldt[id].code <==> flags / 2 % 2 == 1)
        && (r.p.ldt[id].Writable() <==> flags % 4 == 0)
        && (r.p.ldt[id].Readable() <==> flags % 4 != 3)
        && (r.p.ldt[id].seg32 <==> p.descs[id].bits == B32)
        && SameBut(p.descs, r.p.descs, id) && SameBut(p.ldt, r.p.ldt, id)
  {
    hide Tight, Seg.Valid;
    assert flags / 2 % 2 == flags % 4 / 2;
  }

  /** What a reallocation answers, exactly. */
  lemma ReallocStatus(p: Proc, sel: u16, nbytes: u32, host: bool)
    requires WellFormed(p)
    ensures var (id, r) := (SelectorId(sel), DoRealloc(p, sel, nbytes, host));
      if id !in p.descs then r == Reply(EINVAL, p)
      else
        var s := p.segs[p.descs[id].seg];
        if s.shared then r == Reply(EBUSY, p)
        else if s.limitSize >= nbytes then r == Reply(EOK, p)
        else if nbytes > s.reserved || (nbytes > s.pagedSize && !host) then r == Reply(BAD_ALLOC, p)
        else r.status == EOK && r.p.descs == p.descs
  {
    hide GrowBytes, EntryFor, Tight, Seg.Valid;
    if SelectorId(sel) in p.descs {
      var s := p.segs[p.descs[SelectorId(sel)].seg];
      if s.limitSize < nbytes {
        GrowBytesExact(s, nbytes - s.limitSize, host);
      }
    }
  }

  // ----- what every request keeps

  lemma GrowTight(s: Seg, n: nat, host: bool)
    requires Tight(s) && GrowBytes(s, n, host).Some?
    ensures var t := GrowBytes(s, n, host).value;
      Tight(t) && t.Valid() && t.limitSize == s.limitSize + n && t.pagedSize >= s.pagedSize && t.location == s.location
  {
    GrowBytesExtends(s, n, host);
  }

  lemma NewSegmentTight(n: nat, place: Option<nat>, host: bool)
    requires NewSegment(n, place, host).Some?
    ensures Tight(NewSegment(n, place, host).value) && NewSegment(n, place, host).value.Valid()
    ensures NewSegment(n, place, host).value.limitSize == n
  {
  }

  lemma AppendKeepsInv(p: Proc, s: Seg)
    requires Inv(p) && Tight(s) && s.Valid() && s.limitSize > 0
    ensures Inv(p.(segs := p.segs + [s]))
  {
    hide Tight, Fits;
    forall id | id in p.ldt ensures Covered(p.ldt[id], p.segs + [s]) {
      var k :| 0 <= k < |p.segs| && Fits(p.ldt[id], p.segs[k]);
      assert (p.segs + [s])[k] == p.segs[k];
    }
  }

  lemma AddDescriptorKeepsInv(p: Proc, access: Access, seg: nat, bits: Bitness)
    requires Inv(p) && seg < |p.segs| && AddDescriptor(p, access, seg, bits).Some?
    ensures Inv(AddDescriptor(p, access, seg, bits).value)
  {
    hide Tight, Fits, EntryFor, Seg.Valid, LowestFree;
    var id := LowestFree(p.descs.Keys, 0, MAX_DESCRIPTORS).value;
    var d := Descriptor(id, access, seg, bits);
    UpdateFits(d, p.segs[seg]);
    InstallKeepsInv(p, d);
  }

  lemma InstallKeepsInv(p: Proc, d: Descriptor)
    requires Inv(p) && d.id < MAX_DESCRIPTORS && d.seg < |p.segs| && Fits(EntryFor(d, p.segs[d.seg]), p.segs[d.seg])
    ensures Inv(p.(descs := p.descs[d.id := d], ldt := p.ldt[d.id := EntryFor(d, p.segs[d.seg])]))
  {
    hide Tight, Fits, EntryFor, Seg.Valid;
  }

  lemma UpdateKeepsInv(p: Proc, id: nat, d: Descriptor)
    requires Inv(p) && id in p.descs && d == p.descs[id].(access := d.access)
    ensures Inv(p.(descs := p.descs[id := d], ldt := p.ldt[id := EntryFor(d, p.segs[d.seg])]))
  {
    hide Tight, Fits, EntryFor;
    UpdateFits(d, p.segs[d.seg]);
  }

  /** A segment that grew, while the descriptors on it still have the entries they had. */
  lemma GrowthKeepsInv(p: Proc, k: nat, t: Seg)
    requires Inv(p) && k < |p.segs| && Tight(t) && t.Valid() && t.location == p.segs[k].location
    requires t.pagedSize >= p.segs[k].pagedSize && t.limitSize >= p.segs[k].limitSize
    ensures Inv(p.(segs := p.segs[k := t]))
  {
    hide Tight, LdtEntry.Extent;
    forall id | id in p.ldt ensures Covered(p.ldt[id], p.segs[k := t]) {
      var j :| 0 <= j < |p.segs| && Fits(p.ldt[id], p.segs[j]);
      assert Fits(p.ldt[id], p.segs[k := t][j]);
    }
  }

  lemma ReallocKeepsInv(p: Proc, sel: u16, nbytes: u32, host: bool)
    requires Inv(p)
    ensures Inv(DoRealloc(p, sel, nbytes, host).p)
  {
    hide GrowBytes, EntryFor, Fits, Tight;
    var id := SelectorId(sel);
    if id in p.descs {
      var d := p.descs[id];
      var s := p.segs[d.seg];
      if s.limitSize < nbytes && GrowBytes(s, nbytes - s.limitSize, host).Some? {
        GrowTight(s, nbytes - s.limitSize, host);
        var t := GrowBytes(s, nbytes - s.limitSize, host).value;
        GrowthKeepsInv(p, d.seg, t);
        var q := p.(segs := p.segs[d.seg := t]);
        UpdateKeepsInv(q, id, d);
        assert q.descs[id := d] == q.descs;
      }
    }
  }

  lemma PerformKeepsWellFormed(p: Proc, r: Request)
    requires WellFormed(p) && Allowed(p, r)
    ensures WellFormed(Perform(p, r).p)
  {
    hide NewSegment, GrowBytes, EntryFor, Tight, Seg.Valid;
    match r
    case Alloc(n, bits, place, host) =>
      if NewSegment(AllocBytes(n, bits), place, host).Some? {
        NewSegmentTight(AllocBytes(n, bits), place, host);
      }
    case Realloc(sel, n, host) =>
      if SelectorId(sel) in p.descs {
        var s := p.segs[p.descs[SelectorId(sel)].seg];
        if s.limitSize < n && GrowBytes(s, n - s.limitSize, host).Some? {
          GrowTight(s, n - s.limitSize, host);
        }
      }
    case MakeShared(k) => SharedTight(p.segs[k]);
    case _ =>
  }

  lemma PerformKeepsInv(p: Proc, r: Request)
    requires Inv(p) && Allowed(p, r) && NonEmpty(r)
    ensures Inv(Perform(p, r).p)
  {
    hide NewSegment, AddDescriptor, DoRealloc, EntryFor, Tight, Fits, Covered;
    match r
    case Alloc(n, bits, place, host) =>
      var s := NewSegment(AllocBytes(n, bits), place, host);
      if s.Some? {
        NewSegmentTight(AllocBytes(n, bits), place, host);
        AppendKeepsInv(p, s.value);
        if AddDescriptor(p.(segs := p.segs + [s.value]), READ_WRITE, |p.segs|, bits).Some? {
          AddDescriptorKeepsInv(p.(segs := p.segs + [s.value]), READ_WRITE, |p.segs|, bits);
        }
      }
    case Share(k, access, bits) =>
      if AddDescriptor(p, access, k, bits).Some? {
        AddDescriptorKeepsInv(p, access, k, bits);
      }
    case Realloc(sel, n, host) => ReallocKeepsInv(p, sel, n, host);
    case FreeSel(sel) => FreeKeepsInv(p, sel);
    case Flags(sel, flags) =>
      if SelectorId(sel) in p.descs {
        UpdateKeepsInv(p, SelectorId(sel), p.descs[SelectorId(sel)].(access := AccessOf(flags)));
      }
    case MakeShared(k) => SharedKeepsInv(p, k);
  }

  lemma FreeKeepsInv(p: Proc, sel: u16)
    requires Inv(p)
    ensures Inv(DoFree(p, sel).p)
  {
    hide Tight, Fits, Covered;
  }

  lemma SharedKeepsInv(p: Proc, k: nat)
    requires Inv(p) && k < |p.segs|
    ensures Inv(p.(segs := p.segs[k := p.segs[k].(shared := true)]))
  {
    SharedTight(p.segs[k]);
    GrowthKeepsInv(p, k, p.segs[k].(shared := true));
  }

  lemma SharedTight(s: Seg)
    requires Tight(s)
    ensures Tight(s.(shared := true)) && s.(shared := true).Valid()
  {
  }

  predicate AllowedRun(p: Proc, rs: seq<Request>)
    requires Inv(p)
    decreases |rs|
  {
    rs == [] || (Allowed(p, rs[0]) && NonEmpty(rs[0]) && (PerformKeepsInv(p, rs[0]); AllowedRun(Perform(p, rs[0]).p, rs[1..])))
  }

  function PerformAll(p: Proc, rs: seq<Request>): Proc
    requires Inv(p) && AllowedRun(p, rs)
    decreases |rs|
  {
    if rs == [] then p else PerformKeepsInv(p, rs[0]); PerformAll(Perform(p, rs[0]).p, rs[1..])
  }

  /**
   In every run of requests on non-empty segments, including several descriptors on one segment,
   each LDT entry stays within the pages of a segment, entries of freed descriptors and stale ones
   too, and each live descriptor's entry stays within its own segment.
   */
  lemma {:induction false} RunKeepsInv(p: Proc, rs: seq<Request>)
    requires Inv(p) && AllowedRun(p, rs)
    ensures Inv(PerformAll(p, rs))
    decreases |rs|
  {
    hide WellFormed, Perform, Fits, Covered;
    if rs != [] {
      PerformKeepsInv(p, rs[0]);
      RunKeepsInv(Perform(p, rs[0]).p, rs[1..]);
    }
  }

  /** A successful reallocation covers the requested size through its own selector and leaves every other entry alone. */
  lemma ReallocCovers(p: Proc, sel: u16, nbytes: u32, host: bool)
    requires WellFormed(p) && DoRealloc(p, sel, nbytes, host).status == EOK
    requires p.segs[p.descs[SelectorId(sel)].seg].limitSize < nbytes
    ensures var (q, id) := (DoRealloc(p, sel, nbytes, host).p, SelectorId(sel));
      && q.segs[q.descs[id].seg].limitSize == nbytes
      && q.ldt[id].Extent() >= nbytes && Fits(q.ldt[id], q.segs[q.descs[id].seg])
      && forall j :: j in p.ldt && j != id ==> q.ldt[j] == p.ldt[j]
  {
    hide GrowBytes, EntryFor, Fits, Tight;
    var id := SelectorId(sel);
    var d := p.descs[id];
    var s := p.segs[d.seg];
    GrowTight(s, nbytes - s.limitSize, host);
    UpdateFits(d, GrowBytes(s, nbytes - s.limitSize, host).value);
  }

  // ----- the object

  /** The fields of a segment_reply beside the status; a cleared reply has zeros. */
  datatype Answer = Answer(sel: nat, nbytes: nat, addr: nat, flags: nat)

  const NO_ANSWER := Answer(0, 0, 0, 0)

  class SegmentTable {
    const descriptors: IdMap<Descriptor>
    var segments: seq<Seg>
    var ldt: map<nat, LdtEntry>

    function State(): Proc
      reads this, descriptors
    {
      Proc(segments, descriptors.Model(), ldt)
    }

    predicate Valid()
      reads this, descriptors
    {
      descriptors.Valid() && descriptors.max == MAX_DESCRIPTORS && WellFormed(State())
    }

    constructor ()
      ensures Valid() && State() == Proc([], map[], map[]) && fresh(descriptors)
    {
      descriptors := new IdMap<Descriptor>(MAX_DESCRIPTORS);
      segments, ldt := [], map[];
    }

    method UpdateDescriptors(d: Descriptor)
      requires d.seg < |segments|
      modifies this`ldt
      ensures ldt == old(ldt)[d.id := EntryFor(d, segments[d.seg])]
    {
      ldt := ldt[d.id := EntryFor(d, segments[d.seg])];
    }

    method CreateDescriptor(access: Access, seg: nat, bits: Bitness) returns (id: Option<nat>)
      requires descriptors.Valid() && descriptors.max == MAX_DESCRIPTORS && seg < |segments|
      modifies this`ldt, descriptors
      ensures descriptors.Valid()
      ensures id == LowestFree(old(descriptors.Model()).Keys, 0, MAX_DESCRIPTORS)
      ensures id.None? ==> State() == old(State())
      ensures id.Some? ==> Some(State()) == AddDescriptor(old(State()), access, seg, bits)
    {
      var r := descriptors.AllocAny((i: nat) => Descriptor(i, access, seg, bits));
      if !r.Allocated? {
        return None;
      }
      UpdateDescriptors(r.value);
      return Some(r.id);
    }

    /** proc_segment_alloc; an exception on the way leaves the state as it was. */
    method ProcSegmentAlloc(nbytes: u32, bits: Bitness, place: Option<nat>, host: bool) returns (status: Status, answer: Answer)
      requires Valid()
      modifies this, descriptors
      ensures Valid() && Reply(status, State()) == DoAlloc(old(State()), nbytes, bits, place, host)
      ensures status == EOK ==>
        var (q, id) := (State(), answer.sel / 8);
        && id in q.descs && id !in old(State()).descs && q.descs[id].seg == |old(segments)| < |q.segs|
        && place.Some? && answer == Answer(MakeSelector(id), AllocBytes(nbytes, bits), place.value, 0)
    {
      hide WellFormed, EntryFor, NewSegment, Tight, Seg.Valid, LowestFree;
      PerformKeepsWellFormed(State(), Alloc(nbytes, bits, place, host));
      var s := NewSegment(AllocBytes(nbytes, bits), place, host);
      if s.None? {
        return BAD_ALLOC, NO_ANSWER;
      }
      NewSegmentExact(AllocBytes(nbytes, bits), place, host);
      segments := segments + [s.value];
      var id := CreateDescriptor(READ_WRITE, |segments| - 1, bits);
      if id.None? {
        segments := segments[..|segments| - 1];
        return BAD_ALLOC, NO_ANSWER;
      }
      return EOK, Answer(MakeSelector(id.value), s.value.limitSize, s.value.location, 0);
    }

    method ProcSegmentRealloc(sel: u16, nbytes: u32, host: bool) returns (status: Status, answer: Answer)
      requires Valid()
      modifies this
      ensures Valid() && Reply(status, State()) == DoRealloc(old(State()), sel, nbytes, host)
      ensures status != EOK ==> answer == NO_ANSWER
      ensures status == EOK ==> var q := State();
        && SelectorId(sel) in q.descs
        && var s := q.segs[q.descs[SelectorId(sel)].seg]; answer == Answer(sel, s.limitSize, s.location, 0)
    {
      hide EntryFor, GrowBytes, Tight, Seg.Valid;
      PerformKeepsWellFormed(State(), Realloc(sel, nbytes, host));
      var sd := descriptors.Lookup(SelectorId(sel));
      if sd.None? {
        return EINVAL, NO_ANSWER;
      }
      var s := segments[sd.value.seg];
      if s.shared {
        return EBUSY, NO_ANSWER;
      }
      if s.limitSize < nbytes {
        var t := GrowBytes(s, nbytes - s.limitSize, host);
        if t.None? {
          return BAD_ALLOC, NO_ANSWER;
        }
        segments := segments[sd.value.seg := t.value];
        UpdateDescriptors(sd.value);
      }
      s := segments[sd.value.seg];
      return EOK, Answer(sel, s.limitSize, s.location, 0);
    }

    method ProcSegmentFree(sel: u16) returns (status: Status)
      requires Valid()
      modifies descriptors
      ensures Valid() && Reply(status, State()) == DoFree(old(State()), sel)
    {
      hide WellFormed;
      PerformKeepsWellFormed(State(), FreeSel(sel));
      var sd := descriptors.Lookup(SelectorId(sel));
      if sd.None? {
        return EINVAL;
      }
      descriptors.Free(sd.value.id);
      return EOK;
    }

    /** The answer carries the flags in the field for the selector too. */
    method ProcSegmentFlags(sel: u16, flags: u16) returns (status: Status, answer: Answer)
      requires Valid()
      modifies this, descriptors
      ensures Valid() && Reply(status, State()) == DoFlags(old(State()), sel, flags)
      ensures answer == if status == EOK then Answer(flags, 0, 0, flags) else NO_ANSWER
    {
      hide EntryFor, Tight, Seg.Valid;
      PerformKeepsWellFormed(State(), Flags(sel, flags));
      var sd := descriptors.Lookup(SelectorId(sel));
      if sd.None? {
        return EINVAL, NO_ANSWER;
      }
      var d := sd.value.(access := AccessOf(flags));
      descriptors.Replace(d.id, d);
      UpdateDescriptors(d);
      return EOK, Answer(flags, 0, 0, flags);
    }
  }
}
