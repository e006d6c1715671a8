/**
 Layout of a flat executable (FlatLoader in src/loader.cpp): one QNX segment that holds a guard,
 the stack, the loader segments and the heap. The loader's fields are uint32_t and wrap.
 */
module FlatLoaders {
  import opened Words
  import opened Segments

  const RESERVATION: nat := 0x2000_0000

  datatype FlatSegment = FlatSegment(start: u32, size: u32, access: nat)

  datatype Header = Header(imageBase: u32, stackBytes: u32, heapBytes: u32)

  /** What the host answers to the reservation and to the three mappings. */
  datatype Host = Host(place: Option<nat>, stack: bool, image: bool, heap: bool)

  function AlignPage32(v: u32): u32 { Wrap32(AlignPageUp(v)) }

  /** A segment word of the header: 4 bits of access, 28 bits of size. */
  function SizeOf(word: u32): u32 { word % 0x1000_0000 }

  function AccessOf(word: u32): nat { word / 0x1000_0000 }

  lemma WordSplits(word: u32)
    ensures SizeOf(word) < 0x1000_0000 && AccessOf(word) < 16
    ensures AccessOf(word) * 0x1000_0000 + SizeOf(word) == word
  {
  }

  /** Where the segments end when they are put one after another, in whole pages. */
  function End(base: nat, words: seq<u32>): nat {
    if words == [] then base else End(base, words[..|words| - 1]) + AlignPageUp(SizeOf(words[|words| - 1]))
  }

  lemma {:induction false} EndGrows(base: nat, words: seq<u32>, i: nat)
    requires i <= |words|
    ensures base <= End(base, words[..i]) <= End(base, words)
    ensures base % PAGE_SIZE == 0 ==> End(base, words) % PAGE_SIZE == 0
    decreases |words|
  {
    hide AlignPageUp, SizeOf;
    if i == |words| {
      assert words[..i] == words;
      if i > 0 {
        EndGrows(base, words[..i - 1], i - 1);
      }
    } else {
      EndGrows(base, words[..|words| - 1], i);
      assert words[..|words| - 1][..i] == words[..i];
    }
  }

  /** The image fits: no 32-bit sum on the way wraps. */
  predicate Fits(h: Header, words: seq<u32>) {
    && AlignPageUp(h.stackBytes) + PAGE_SIZE < 0x1_0000_0000
    && End(AlignPageUp(h.imageBase), words) < 0x1_0000_0000
  }

  /** The first `n` segments of the table stand one after another from `base` up to `end`. */
  predicate InOrder(segs: seq<FlatSegment>, n: nat, words: seq<u32>, base: nat, end: nat) {
    && n <= |segs| && n <= |words|
    && (if n == 0 then end == base else segs[0].start == base && segs[n - 1].start + segs[n - 1].size == end)
    && (forall i :: 0 < i < n ==> segs[i].start as int == segs[i - 1].start + segs[i - 1].size)
    && (forall i :: 0 <= i < n ==>
          segs[i].size as int == AlignPageUp(SizeOf(words[i])) && segs[i].access == AccessOf(words[i]))
  }

  /** A flat segment: pages below `low` are a guard, all others up to the end are mapped. */
  predicate GuardedBelow(s: Seg, low: nat) {
    && s.Valid() && low % PAGE_SIZE == 0 && low <= s.pagedSize == s.limitSize
    && forall p :: 0 <= p < |s.bitmap| ==> (s.bitmap[p] <==> low / PAGE_SIZE <= p)
  }

  /** Of a flat segment, check_bounds accepts exactly the non-empty ranges that lie between guard and end. */
  lemma GuardedBounds(s: Seg, low: nat, offset: nat, size: nat)
    requires GuardedBelow(s, low) && size > 0
    ensures s.CheckBounds(offset, size) <==> low <= offset && offset + size <= s.pagedSize
  {
    CheckBoundsExact(s, offset, size);
    if s.CheckBounds(offset, size) {
      assert s.Mapped(offset) && s.Mapped(offset + size - 1);
    }
    if low <= offset && offset + size <= s.pagedSize {
      forall b | offset <= b < offset + size ensures s.Mapped(b) {
        assert low / PAGE_SIZE <= b / PAGE_SIZE < |s.bitmap|;
      }
    }
  }

  /** An empty range at a page start is accepted anywhere before the end, inside the guard too. */
  lemma GuardedEmpty(s: Seg, low: nat, offset: nat)
    requires GuardedBelow(s, low) && offset % PAGE_SIZE == 0
    ensures s.CheckBounds(offset, 0) <==> offset < s.pagedSize
  {
  }

  lemma {:induction false} InOrderRange(segs: seq<FlatSegment>, n: nat, words: seq<u32>, base: nat, end: nat, i: nat)
    requires InOrder(segs, n, words, base, end) && i < n && base % PAGE_SIZE == 0
    ensures base <= segs[i].start && segs[i].start % PAGE_SIZE == 0
    ensures segs[i].start + segs[i].size <= segs[n - 1].start + segs[n - 1].size == end
    decreases n
  {
    hide AlignPageUp, SizeOf, AccessOf;
    if n > 1 {
      var mid := segs[n - 2].start + segs[n - 2].size;
      assert InOrder(segs, n - 1, words, base, mid);
      InOrderRange(segs, n - 1, words, base, mid, if i < n - 1 then i else n - 2);
    }
  }

  /** The assertions of finalize_loading, one for each loader segment. */
  predicate Protected(s: Seg, segs: seq<FlatSegment>) {
    forall i :: 0 <= i < |segs| ==> s.CheckBounds(segs[i].start, segs[i].size)
  }

  /** Segments that lie in order between guard and heap pass their assertions, empty ones too. */
  lemma InOrderProtected(s: Seg, segs: seq<FlatSegment>, words: seq<u32>, low: nat, base: nat, end: nat)
    requires GuardedBelow(s, low) && InOrder(segs, |segs|, words, base, end)
    requires low <= base && base % PAGE_SIZE == 0 && end < s.pagedSize
    ensures Protected(s, segs)
  {
    hide Seg.CheckBounds, GuardedBelow;
    forall i | 0 <= i < |segs| ensures s.CheckBounds(segs[i].start, segs[i].size) {
      InOrderRange(segs, |segs|, words, base, end, i);
      if segs[i].size > 0 {
        GuardedBounds(s, low, segs[i].start, segs[i].size);
      } else {
        GuardedEmpty(s, low, segs[i].start);
      }
    }
  }

  // ----- 32-bit sums

  lemma WrapAligned(x: int, y: int)
    requires x % PAGE_SIZE == 0 && y % PAGE_SIZE == 0
    ensures Wrap32(x - y) % PAGE_SIZE == 0 && Wrap32(x + y) % PAGE_SIZE == 0
  {
    assert 0x1_0000_0000 == PAGE_SIZE * 0x10_0000;
  }

  lemma WrapZero(x: u32, y: u32)
    ensures Wrap32((x as int) - y) == 0 <==> x == y
  {
  }

  lemma SizeSmall(word: u32)
    ensures AlignPage32(SizeOf(word)) as int == AlignPageUp(SizeOf(word)) <= 0x1000_0000
  {
  }

  /** The table as it is filled: every start is the sum of what is in front, reduced to 32 bits. */
  predicate Placed(segs: seq<FlatSegment>, n: nat, words: seq<u32>, base: u32) {
    && n <= |segs| && n <= |words|
    && forall i :: 0 <= i < n ==>
         segs[i] == FlatSegment(Wrap32(End(base, words[..i])), AlignPage32(SizeOf(words[i])), AccessOf(words[i]))
  }

  lemma WrapStep(words: seq<u32>, i: nat, base: u32, pos: u32)
    requires i < |words| && pos == Wrap32(End(base, words[..i])) && base % PAGE_SIZE == 0
    ensures Wrap32(pos + AlignPage32(SizeOf(words[i]))) == Wrap32(End(base, words[..i + 1]))
  {
    hide AlignPageUp, SizeOf;
    SizeSmall(words[i]);
    assert words[..i + 1][..i] == words[..i];
    WrapSum(End(base, words[..i]), AlignPageUp(SizeOf(words[i])));
  }

  /** Without wrap-around the table is in order. */
  lemma {:induction false} PlacedInOrder(segs: seq<FlatSegment>, n: nat, words: seq<u32>, base: u32)
    requires Placed(segs, n, words, base) && End(base, words[..n]) < 0x1_0000_0000
    ensures InOrder(segs, n, words, base, End(base, words[..n]))
    decreases n
  {
    hide AlignPageUp, SizeOf, AccessOf, Wrap32, InOrder;
    if n > 0 {
      var k := n - 1;
      assert words[..n][..k] == words[..k];
      PlacedInOrder(segs, k, words, base);
      EndGrows(base, words[..k], 0);
      WrapSmall(End(base, words[..k]));
      SizeSmall(words[k]);
      InOrderGrows(segs, k, words, base, End(base, words[..k]));
    } else {
      InOrderNone(segs, words, base);
    }
  }

  lemma InOrderNone(segs: seq<FlatSegment>, words: seq<u32>, base: nat)
    ensures words[..0] == [] && InOrder(segs, 0, words, base, base)
  {
  }

  lemma InOrderGrows(segs: seq<FlatSegment>, n: nat, words: seq<u32>, base: nat, end: nat)
    requires InOrder(segs, n, words, base, end) && n < |segs| && n < |words| && segs[n].start as int == end
    requires segs[n].size as int == AlignPageUp(SizeOf(words[n])) && segs[n].access == AccessOf(words[n])
    ensures InOrder(segs, n + 1, words, base, end + AlignPageUp(SizeOf(words[n])))
  {
    hide AlignPageUp, SizeOf, AccessOf;
  }

  /** When the sum wraps, some segment starts in the upper half of the offsets. */
  lemma {:induction false} WrapExposed(words: seq<u32>, base: u32) returns (i: nat)
    requires base < 0x8000_0000 && End(base, words) >= 0x1_0000_0000
    ensures i < |words| && 0x8000_0000 <= End(base, words[..i]) < 0x1_0000_0000
    decreases |words|
  {
    hide AlignPageUp, SizeOf;
    var init := words[..|words| - 1];
    SizeSmall(words[|words| - 1]);
    if End(base, init) < 0x1_0000_0000 {
      i := |init|;
    } else {
      i := WrapExposed(init, base);
      assert init[..i] == words[..i];
    }
  }

  lemma WrappedNotProtected(s: Seg, segs: seq<FlatSegment>, words: seq<u32>, base: u32)
    requires Placed(segs, |words|, words, base) && |segs| == |words| && s.pagedSize <= RESERVATION
    requires base < 0x8000_0000 && End(base, words) >= 0x1_0000_0000
    ensures !Protected(s, segs)
  {
    hide End, Seg.PageMapped, AlignPageUp, Wrap32;
    var i := WrapExposed(words, base);
    WrapSmall(End(base, words[..i]));
    assert !s.CheckBounds(segs[i].start, segs[i].size);
  }

  lemma SizesFit(h: Header, words: seq<u32>)
    requires Fits(h, words)
    ensures var (base, stack, end) := (AlignPageUp(h.imageBase), AlignPageUp(h.stackBytes), End(AlignPageUp(h.imageBase), words));
      && base == AlignPage32(h.imageBase) && stack == AlignPage32(h.stackBytes)
      && Wrap32(stack + PAGE_SIZE) as int == stack + PAGE_SIZE
      && (stack + PAGE_SIZE <= base ==> Wrap32(base - stack) as int == base - stack && (base - stack) % PAGE_SIZE == 0)
      && Wrap32(end - base) as int == end - base && end % PAGE_SIZE == 0 && base % PAGE_SIZE == 0
  {
    hide AlignPageUp, End;
    EndGrows(AlignPageUp(h.imageBase), words, 0);
  }

  // ----- which loads succeed

  /** finalize_segments goes through: the stack check passes, no mapping is empty and all of them fit. */
  predicate LoadSucceeds(h: Header, words: seq<u32>, host: Host) {
    var base := AlignPage32(h.imageBase);
    Finalizes(h, base, Wrap32(End(base, words)), host)
  }

  predicate Finalizes(h: Header, base: u32, pos: u32, host: Host) {
    var stack := AlignPage32(h.stackBytes);
    && Wrap32(stack + PAGE_SIZE) <= base
    && host.place.Some? && host.stack && host.image && host.heap
    && stack > 0 && pos != base && h.heapBytes > 0
    && Wrap32((base as int) - stack) + stack + Wrap32((pos as int) - base) + h.heapBytes <= RESERVATION
  }

  /**
   When no sum wraps, a load succeeds exactly when the host cooperates, the stack leaves room for
   a guard page, neither stack nor image nor heap is empty, and the whole fits the reservation.
   */
  lemma LoadSucceedsIff(h: Header, words: seq<u32>, host: Host)
    requires Fits(h, words)
    ensures LoadSucceeds(h, words, host) <==>
      && AlignPageUp(h.stackBytes) + PAGE_SIZE <= AlignPageUp(h.imageBase)
      && host == Host(host.place, true, true, true) && host.place.Some?
      && h.stackBytes > 0 && h.heapBytes > 0 && End(AlignPageUp(h.imageBase), words) > AlignPageUp(h.imageBase)
      && End(AlignPageUp(h.imageBase), words) + h.heapBytes <= RESERVATION
  {
    hide End, AlignPageUp, Wrap32;
    SizesFit(h, words);
    EndGrows(AlignPageUp(h.imageBase), words, 0);
    WrapSmall(End(AlignPageUp(h.imageBase), words));
    StackEmptyIff(h.stackBytes);
  }

  lemma StackEmptyIff(n: u32)
    ensures AlignPageUp(n) == 0 <==> n == 0
  {
  }

  /** A load that succeeds wraps at most in the sum over the loader segments. */
  lemma SucceedsBounds(h: Header, words: seq<u32>, host: Host)
    requires LoadSucceeds(h, words, host)
    ensures AlignPage32(h.imageBase) as int == AlignPageUp(h.imageBase) <= RESERVATION
    ensures AlignPage32(h.stackBytes) as int == AlignPageUp(h.stackBytes)
    ensures AlignPageUp(h.stackBytes) + PAGE_SIZE <= AlignPageUp(h.imageBase)
    ensures Fits(h, words) <==> End(AlignPageUp(h.imageBase), words) < 0x1_0000_0000
  {
    hide End;
    AlignSmall(h.imageBase);
    AlignSmall(h.stackBytes);
  }

  lemma AlignSmall(v: u32)
    ensures AlignPage32(v) > 0 ==> AlignPage32(v) as int == AlignPageUp(v)
  {
  }

  /** Sixteen segments of 256 MiB and one more page wrap around to one page, and the load goes through. */
  lemma WrappedLoadHappens()
    ensures var (h, host) := (Header(0x2000, 0x1000, 0x1000), Host(Some(0), true, true, true));
      LoadSucceeds(h, BigWords(16) + [0x1000], host) && !Fits(h, BigWords(16) + [0x1000])
  {
    var words := BigWords(16) + [0x1000];
    BigEnd(0x2000, 16);
    assert words[..16] == BigWords(16);
    assert End(0x2000, words) == 0x2000 + 16 * 0x1000_0000 + 0x1000;
    assert AlignPageUp(0x2000) == 0x2000 && AlignPageUp(0x1000) == 0x1000;
  }

  function BigWords(n: nat): (ws: seq<u32>)
    ensures |ws| == n
  {
    if n == 0 then [] else BigWords(n - 1) + [0xFFF_FFFF]
  }

  lemma BigSize()
    ensures AlignPageUp(SizeOf(0xFFF_FFFF)) == 0x1000_0000
  {
  }

  lemma {:induction false} BigEnd(base: nat, n: nat)
    ensures End(base, BigWords(n)) == base + n * 0x1000_0000
  {
    hide AlignPageUp, SizeOf;
    BigSize();
    if n > 0 {
      BigEnd(base, n - 1);
      assert BigWords(n)[..n - 1] == BigWords(n - 1);
    }
  }

  // ----- the segment, as a function of its three sizes

  /** `guard` bytes without pages, then mapped pages up to `total`. */
  function FlatSeg(place: nat, guard: nat, total: nat): Seg
    requires guard <= total
  {
    Seg(place, total, total, RESERVATION, false, Pages(guard / PAGE_SIZE, false) + Pages((total - guard) / PAGE_SIZE, true))
  }

  lemma FlatSegGrows(place: nat, guard: nat, total: nat, limit: nat, n: nat, host: bool)
    requires guard <= total && guard % PAGE_SIZE == total % PAGE_SIZE == n % PAGE_SIZE == 0
    ensures GrowPaged(FlatSeg(place, guard, total).(limitSize := limit), n, host)
      == GrowPaged(FlatSeg(place, guard, total), n, host)
      == if total + n <= RESERVATION && n > 0 && host then Some(FlatSeg(place, guard, total + n)) else None
  {
    assert (total + n - guard) / PAGE_SIZE == (total - guard) / PAGE_SIZE + n / PAGE_SIZE;
    assert Pages((total - guard) / PAGE_SIZE, true) + Pages(n / PAGE_SIZE, true) == Pages((total + n - guard) / PAGE_SIZE, true);
    var g, m, k := Pages(guard / PAGE_SIZE, false), Pages((total - guard) / PAGE_SIZE, true), Pages(n / PAGE_SIZE, true);
    assert (g + m) + k == g + (m + k);
  }

  lemma FlatSegGuarded(place: nat, guard: nat, total: nat)
    requires guard <= total <= RESERVATION && guard % PAGE_SIZE == total % PAGE_SIZE == 0
    ensures GuardedBelow(FlatSeg(place, guard, total), guard) && FlatSeg(place, guard, total).pagedSize == total
  {
  }

  lemma FlatSegStart(place: nat, guard: nat)
    requires guard % PAGE_SIZE == 0
    ensures SkipPages(Seg(place, 0, 0, RESERVATION, false, []), guard)
      == if guard <= RESERVATION then Some(FlatSeg(place, guard, guard).(limitSize := 0)) else None
  {
    assert Pages(guard / PAGE_SIZE, false) + Pages(0, true) == [] + Pages(guard / PAGE_SIZE, false);
  }

  lemma BaseAligned(h: Header, words: seq<u32>)
    ensures AlignPage32(h.imageBase) % PAGE_SIZE == 0
    ensures Wrap32(End(AlignPage32(h.imageBase), words)) % PAGE_SIZE == 0
    ensures Wrap32(End(AlignPage32(h.imageBase), [])) == AlignPage32(h.imageBase)
  {
    hide AlignPageUp;
    WrapAligned(AlignPageUp(h.imageBase), 0);
    EndGrows(AlignPage32(h.imageBase), words, 0);
    WrapAligned(End(AlignPage32(h.imageBase), words), 0);
    WrapSmall(AlignPage32(h.imageBase));
  }

  /** What finalize_segments leaves behind when it succeeds. */
  lemma Tiles(h: Header, words: seq<u32>, host: Host, segs: seq<FlatSegment>, s: Seg, skip: u32, heapStart: nat)
    requires LoadSucceeds(h, words, host) && h.heapBytes % PAGE_SIZE == 0
    requires var (base, stack) := (AlignPage32(h.imageBase), AlignPage32(h.stackBytes));
      && |segs| == |words| && Placed(segs, |words|, words, base)
      && skip == Wrap32((base as int) - stack)
      && heapStart == skip + stack + Wrap32((Wrap32(End(base, words)) as int) - base)
      && s == FlatSeg(host.place.value, skip, heapStart + h.heapBytes)
    ensures Fits(h, words) ==>
      && skip >= PAGE_SIZE && GuardedBelow(s, skip)
      && skip + AlignPageUp(h.stackBytes) == AlignPageUp(h.imageBase)
      && AlignPageUp(h.imageBase) == AlignPage32(h.imageBase) && AlignPageUp(h.stackBytes) == AlignPage32(h.stackBytes)
      && InOrder(segs, |words|, words, AlignPageUp(h.imageBase), heapStart)
      && heapStart + h.heapBytes == s.pagedSize
    ensures Protected(s, segs) <==> Fits(h, words)
  {
    hide FlatSeg, Pages, AlignPageUp, InOrder, GuardedBelow, AlignPage32, Wrap32, Fits, Seg.Valid, End, Placed, Protected;
    SucceedsBounds(h, words, host);
    var base := AlignPage32(h.imageBase);
    TotalFits(host.place.value, skip, heapStart + h.heapBytes);
    if Fits(h, words) {
      SizesFit(h, words);
      EndGrows(base, words, 0);
      WrapSmall(End(base, words));
      FlatSegGuarded(host.place.value, skip, heapStart + h.heapBytes);
      assert words[..|words|] == words;
      PlacedInOrder(segs, |words|, words, base);
      InOrderProtected(s, segs, words, skip, base, heapStart);
    } else {
      WrappedNotProtected(s, segs, words, base);
    }
  }

  lemma TotalFits(place: nat, guard: nat, total: nat)
    requires guard <= total
    ensures FlatSeg(place, guard, total).pagedSize == total
  {
  }

  // ----- the object

  class FlatLoader {
    var segments: seq<FlatSegment>
    var segmentPos: u32
    var skip: u32
    var stack: u32
    var imageBase: u32
    var heapStart: nat
    const mem: Segment

    constructor ()
      ensures fresh(mem) && mem.Valid() && mem.State() == Seg(0, 0, 0, 0, false, [])
    {
      segments, segmentPos, skip, stack, imageBase, heapStart := [], 0, 0, 0, 0, 0;
      mem := new Segment();
    }

    method PrepareSegments(h: Header, count: nat)
      modifies this
      ensures |segments| == count && imageBase == segmentPos == AlignPage32(h.imageBase)
    {
      segments := seq(count, _ => FlatSegment(0, 0, 0));
      imageBase := AlignPage32(h.imageBase);
      segmentPos := imageBase;
    }

    method AllocSegment(id: nat, access: nat, size: u32)
      requires id < |segments|
      modifies this`segments, this`segmentPos
      ensures segments == old(segments)[id := FlatSegment(old(segmentPos), AlignPage32(size), access)]
      ensures segmentPos == Wrap32(old(segmentPos) + AlignPage32(size))
    {
      segments := segments[id := FlatSegment(segmentPos, AlignPage32(size), access)];
      segmentPos := Wrap32(segmentPos + AlignPage32(size));
    }

    /** The segment of finalize_segments, from its four sizes; false for std::bad_alloc. */
    method BuildSegment(guard: nat, stackSize: nat, image: nat, heap: nat, host: Host) returns (ok: bool)
      requires mem.Valid() && mem.State() == Seg(0, 0, 0, 0, false, [])
      requires guard % PAGE_SIZE == stackSize % PAGE_SIZE == image % PAGE_SIZE == heap % PAGE_SIZE == 0
      modifies this`heapStart, mem
      ensures mem.Valid()
      ensures ok == (&& host.place.Some? && host.stack && host.image && host.heap
                     && stackSize > 0 && image > 0 && heap > 0 && guard + stackSize + image + heap <= RESERVATION)
      ensures ok ==> mem.State() == FlatSeg(host.place.value, guard, guard + stackSize + image + heap)
      ensures ok ==> heapStart == guard + stackSize + image
    {
      hide FlatSeg, Pages, Seg.Valid;
      ok := mem.Reserve(RESERVATION, host.place);
      if !ok {
        return;
      }
      ghost var at := host.place.value;
      FlatSegStart(at, guard);
      FlatSegGrows(at, guard, guard, 0, stackSize, host.stack);
      ok := mem.SkipPaged(guard);
      if !ok {
        return;
      }
      ok := mem.GrowPages(stackSize, host.stack);
      if !ok {
        return;
      }
      FlatSegGrows(at, guard, guard + stackSize, 0, image, host.image);
      ok := mem.GrowPages(image, host.image);
      if !ok {
        return;
      }
      assert mem.limitSize == guard + stackSize + image;
      heapStart := mem.limitSize;
      FlatSegGrows(at, guard, heapStart, 0, heap, host.heap);
      ok := mem.GrowPages(heap, host.heap);
    }

    method FinalizeSegments(h: Header, host: Host) returns (ok: bool)
      requires mem.Valid() && mem.State() == Seg(0, 0, 0, 0, false, [])
      requires imageBase % PAGE_SIZE == 0 && segmentPos % PAGE_SIZE == 0 && h.heapBytes % PAGE_SIZE == 0
      modifies this`skip, this`stack, this`heapStart, mem
      ensures mem.Valid()
      ensures stack == AlignPage32(h.stackBytes)
      ensures ok == Finalizes(h, imageBase, segmentPos, host)
      ensures ok ==> skip == Wrap32((imageBase as int) - stack)
      ensures ok ==> heapStart == skip + stack + Wrap32((segmentPos as int) - imageBase)
      ensures ok ==> mem.State() == FlatSeg(host.place.value, skip, heapStart + h.heapBytes)
    {
      hide FlatSeg, Pages, Seg.Valid, Wrap32;
      WrapAligned(AlignPageUp(h.stackBytes), 0);
      WrapAligned(imageBase, AlignPage32(h.stackBytes));
      WrapAligned(segmentPos, imageBase);
      WrapZero(segmentPos, imageBase);
      stack := AlignPage32(h.stackBytes);
      if Wrap32(stack + PAGE_SIZE) > imageBase {
        return false;
      }
      skip := Wrap32(imageBase - stack);
      ok := BuildSegment(skip, stack, Wrap32(segmentPos - imageBase), h.heapBytes, host);
    }

    /** The loop over the segment words of the header. */
    method AllocSegments(h: Header, words: seq<u32>)
      modifies this
      ensures |segments| == |words| && imageBase == AlignPage32(h.imageBase)
      ensures segmentPos == Wrap32(End(imageBase, words)) && Placed(segments, |words|, words, imageBase)
      ensures segmentPos % PAGE_SIZE == 0 && imageBase % PAGE_SIZE == 0
    {
      hide AlignPageUp, AlignPage32, Wrap32, SizeOf, AccessOf, End;
      PrepareSegments(h, |words|);
      BaseAligned(h, words);
      var si := 0;
      while si < |words|
        invariant si <= |words| == |segments| && imageBase == AlignPage32(h.imageBase)
        invariant segmentPos == Wrap32(End(imageBase, words[..si])) && Placed(segments, si, words, imageBase)
      {
        WrapStep(words, si, imageBase, segmentPos);
        AllocSegment(si, AccessOf(words[si]), SizeOf(words[si]));
        si := si + 1;
      }
      assert words[..si] == words;
    }

    /**
     The layout part of the loader. A load that succeeds without wrap-around tiles the segment as
     guard, stack up to the image base, loader segments in order, heap. After every load that
     succeeds, finalize_loading goes through exactly when no sum wrapped.
     */
    method Load(h: Header, words: seq<u32>, host: Host) returns (ok: bool)
      requires mem.Valid() && mem.State() == Seg(0, 0, 0, 0, false, []) && h.heapBytes % PAGE_SIZE == 0
      modifies this, mem
      ensures mem.Valid() && ok == LoadSucceeds(h, words, host)
      ensures ok && Fits(h, words) ==>
        && skip >= PAGE_SIZE && GuardedBelow(mem.State(), skip)
        && stack as int == AlignPageUp(h.stackBytes) && skip + stack == imageBase as int == AlignPageUp(h.imageBase)
        && |segments| == |words| && InOrder(segments, |words|, words, imageBase, heapStart)
        && heapStart + h.heapBytes == mem.pagedSize
      ensures ok ==> (Protected(mem.State(), segments) <==> Fits(h, words))
    {
      hide FlatSeg, Pages, AlignPageUp, InOrder, GuardedBelow, AlignPage32, Wrap32, Fits, Seg.Valid, End, Placed, Protected, Finalizes;
      AllocSegments(h, words);
      ok := FinalizeSegments(h, host);
      if ok {
        Tiles(h, words, host, segments, mem.State(), skip, heapStart);
      }
    }

    /** finalize_loading: true when all its assertions hold. */
    method FinalizeLoading() returns (ok: bool)
      requires mem.Valid()
      ensures ok == Protected(mem.State(), segments)
    {
      for si := 0 to |segments|
        invariant forall i :: 0 <= i < si ==> mem.State().CheckBounds(segments[i].start, segments[i].size)
      {
        ok := mem.CheckRange(segments[si].start, segments[si].size);
        if !ok {
          return;
        }
      }
      return true;
    }
  }
}
