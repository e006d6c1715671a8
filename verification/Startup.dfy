/**
 The bump allocator that carves start-up data out of the data segment (StartupSbrk in
 src/segment.cpp) and the spawn block it builds (setup_startup_context in src/process.cpp).
 */
module Startup {
  import opened Words
  import opened Segments

  /** sizeof(QnxMsg::proc::spawn): the header in front of the strings. */
  const SPAWN_SIZE: nat := 24
  const SPAWN_TYPE: u16 := 3
  const ARGC_AT: nat := 20
  const ENVC_AT: nat := 22

  /** A C string without its terminator. */
  type CString = s: seq<byte> | 0 !in s witness []

  function Terminated(s: CString): seq<byte> { s + [0] }

  function TerminatedAll(ss: seq<CString>): seq<byte> {
    if ss == [] then [] else TerminatedAll(ss[..|ss| - 1]) + Terminated(ss[|ss| - 1])
  }

  /** The strings behind the header: name, arguments, empty string, environment, empty string. */
  function SpawnStrings(exec: CString, args: seq<CString>, env: seq<CString>): seq<byte> {
    Terminated(exec) + TerminatedAll(args) + [0] + TerminatedAll(env) + [0]
  }

  /** Every page from the one holding `low` on is mapped. */
  predicate MappedFrom(s: Seg, low: nat) {
    forall p :: low / PAGE_SIZE <= p < |s.bitmap| ==> s.PageMapped(p)
  }

  lemma GrowKeepsMapped(s: Seg, n: nat, host: bool, low: nat)
    requires s.Valid() && MappedFrom(s, low)
    ensures MappedFrom(Apply(s, Bytes(n, host)), low)
  {
    var t := Apply(s, Bytes(n, host));
    forall p | low / PAGE_SIZE <= p < |t.bitmap| ensures t.PageMapped(p) {
      assert p < |s.bitmap| ==> s.PageMapped(p);
    }
  }

  /** Any non-empty range between `low` and the limit passes check_bounds. */
  lemma ChunkInBounds(s: Seg, low: nat, offset: nat, size: nat)
    requires s.Valid() && MappedFrom(s, low) && low <= offset && size > 0 && offset + size <= s.limitSize
    ensures s.CheckBounds(offset, size)
  {
  }

  class StartupSbrk {
    const segment: Segment
    /** Where allocation started; constant. */
    ghost const low: nat
    var offset: u32
    var lastOffset: u32

    ghost predicate Valid()
      reads this, segment
    {
      && segment.Valid() && low <= offset <= segment.limitSize
      && MappedFrom(segment.State(), low)
    }

    /** What has been carved out so far. */
    ghost function Contents(): seq<byte>
      requires Valid()
      reads this, segment
    {
      segment.data[low..offset]
    }

    constructor (seg: Segment, offset: u32)
      requires seg.Valid() && offset <= seg.limitSize && MappedFrom(seg.State(), offset)
      ensures Valid() && segment == seg && low == offset == this.offset
    {
      segment, low, this.offset, lastOffset := seg, offset, offset, 0xFFFF_FFFF;
    }

    /** Grow the segment until its limit covers `needed`; false for std::bad_alloc. */
    method Reach(needed: u32, host: bool) returns (ok: bool)
      requires segment.Valid() && MappedFrom(segment.State(), low)
      modifies segment
      ensures segment.Valid() && MappedFrom(segment.State(), low) && (ok ==> needed <= segment.limitSize)
      ensures old(segment.data) <= segment.data && Extends(old(segment.State()), segment.State())
    {
      hide MappedFrom;
      ok := true;
      if needed > segment.limitSize {
        ghost var growth := Bytes(needed - segment.limitSize, host);
        ApplyExtends(segment.State(), growth);
        GrowKeepsMapped(segment.State(), growth.size, host, low);
        ok := segment.Grow(needed - segment.limitSize, host);
      }
    }

    /**
     alloc: the next `size` bytes; false for std::bad_alloc. Earlier chunks keep their place and
     contents. The chunk is in bounds unless the offset wrapped around.
     */
    method Alloc(size: u32, host: bool) returns (ok: bool)
      requires Valid()
      modifies this, segment
      ensures lastOffset == old(offset) && offset == Wrap32(old(offset) + size)
      ensures segment.Valid() && old(segment.data) <= segment.data && Extends(old(segment.State()), segment.State())
      ensures ok && old(offset) + size < 0x1_0000_0000 ==> Valid()
      ensures ok && old(offset) + size < 0x1_0000_0000 && size > 0 ==> segment.State().CheckBounds(lastOffset, size)
    {
      hide MappedFrom, Extends, Seg.CheckBounds, AddPages;
      lastOffset := offset;
      offset := Wrap32(offset + size);
      ok := Reach(offset, host);
      if ok && size > 0 && lastOffset + size < 0x1_0000_0000 {
        ChunkInBounds(segment.State(), low, lastOffset, size);
      }
    }

    method Align(host: bool) returns (ok: bool)
      requires Valid()
      modifies this, segment
      ensures offset == Wrap32(AlignUp16(old(offset))) && lastOffset == old(lastOffset)
      ensures segment.Valid() && old(segment.data) <= segment.data
      ensures ok && AlignUp16(old(offset)) < 0x1_0000_0000 ==> Valid()
    {
      offset := Wrap32(AlignUp16(offset));
      ok := Reach(offset, host);
    }

    /** memcpy into the segment. */
    method Store(at: nat, bytes: seq<byte>)
      requires Valid() && at + |bytes| <= segment.pagedSize
      modifies segment`data
      ensures Valid() && segment.data == Splice(old(segment.data), at, bytes)
    {
      segment.data := Splice(segment.data, at, bytes);
    }

    method PushString(str: CString, host: bool) returns (ok: bool)
      requires Valid() && offset + |str| + 1 < 0x1_0000_0000
      modifies this, segment
      ensures lastOffset == old(offset) && offset == old(offset) + |str| + 1
      ensures ok ==> Valid() && Contents() == old(Contents()) + Terminated(str)
    {
      var len := |str| + 1;
      ok := Alloc(len, host);
      if ok {
        ghost var before := segment.data;
        Store(lastOffset, str + [0]);
        assert segment.data[low..offset] == before[low..lastOffset] + (str + [0]);
      }
    }
  }

  /** What the loader knows about the block: its fixed fields and the strings behind it. */
  predicate SpawnBlockAt(data: seq<byte>, block: nat, exec: CString, args: seq<CString>, env: seq<CString>) {
    var strings := SpawnStrings(exec, args, env);
    && block + SPAWN_SIZE + |strings| <= |data|
    && data[block..block + 2] == Encode16(SPAWN_TYPE)
    && data[block + ARGC_AT..block + ENVC_AT] == Encode16(|args| % 0x1_0000)
    && data[block + ENVC_AT..block + SPAWN_SIZE] == Encode16(|env| % 0x1_0000)
    && data[block + SPAWN_SIZE..block + SPAWN_SIZE + |strings|] == strings
  }

  lemma {:induction false} TerminatedAllPrefix(ss: seq<CString>, i: nat)
    requires i <= |ss|
    ensures |TerminatedAll(ss[..i])| <= |TerminatedAll(ss)|
    ensures i < |ss| ==> TerminatedAll(ss[..i + 1]) == TerminatedAll(ss[..i]) + Terminated(ss[i])
    ensures i < |ss| ==> |TerminatedAll(ss[..i])| + |ss[i]| + 1 <= |TerminatedAll(ss)|
    decreases |ss|
  {
    if i == |ss| {
      assert ss[..i] == ss;
    } else {
      var init := ss[..|ss| - 1];
      if i < |init| {
        TerminatedAllPrefix(init, i);
        assert init[..i] == ss[..i] && init[..i + 1] == ss[..i + 1];
      } else {
        assert ss[..i + 1] == ss && ss[..i] == init;
      }
    }
  }

  lemma NoStrings()
    ensures TerminatedAll([]) == []
  {
  }

  /** Push the strings one after the other and remember where each one is. */
  method PushAllStrings(alloc: StartupSbrk, ss: seq<CString>, host: bool) returns (ok: bool, offsets: seq<u32>)
    requires alloc.Valid() && alloc.offset + |TerminatedAll(ss)| < 0x1_0000_0000
    modifies alloc, alloc.segment
    ensures ok ==> alloc.Valid() && alloc.Contents() == old(alloc.Contents()) + TerminatedAll(ss)
    ensures ok ==> alloc.offset == old(alloc.offset) + |TerminatedAll(ss)|
    ensures ok ==> OffsetsOf(offsets, ss, old(alloc.offset))
  {
    hide TerminatedAll, Seg.Valid, MappedFrom;
    NoStrings();
    offsets := [];
    ok := true;
    ghost var c := alloc.Contents();
    for i := 0 to |ss|
      invariant ok && alloc.Valid() && alloc.Contents() == c + TerminatedAll(ss[..i])
      invariant alloc.offset == old(alloc.offset) + |TerminatedAll(ss[..i])|
      invariant |offsets| == i && forall j :: 0 <= j < i ==> offsets[j] == old(alloc.offset) + |TerminatedAll(ss[..j])|
    {
      TerminatedAllPrefix(ss, i);
      ok := alloc.PushString(ss[i], host);
      if !ok {
        return;
      }
      offsets := offsets + [alloc.lastOffset];
    }
    assert ss[..|ss|] == ss;
  }

  /** The strings behind the header, and where the arguments and the environment went. */
  method PushSpawnStrings(alloc: StartupSbrk, exec: CString, args: seq<CString>, env: seq<CString>, host: bool)
    returns (ok: bool, argv: seq<u32>, envp: seq<u32>)
    requires alloc.Valid() && alloc.offset + |SpawnStrings(exec, args, env)| < 0x1_0000_0000
    modifies alloc, alloc.segment
    ensures ok ==> alloc.Valid() && alloc.Contents() == old(alloc.Contents()) + SpawnStrings(exec, args, env)
    ensures ok ==> alloc.offset == old(alloc.offset) + |SpawnStrings(exec, args, env)|
    ensures ok ==> OffsetsOf(argv, args, old(alloc.offset) + |exec| + 1)
    ensures ok ==> OffsetsOf(envp, env, old(alloc.offset) + |exec| + 1 + |TerminatedAll(args)| + 1)
  {
    hide TerminatedAll, MappedFrom, Seg.Valid;
    argv, envp := [], [];
    ghost var c := alloc.Contents();
    ok := alloc.PushString(exec, host);
    if !ok { return; }
    ok, argv := PushAllStrings(alloc, args, host);
    if !ok { return; }
    ok := alloc.PushString([], host);
    if !ok { return; }
    ok, envp := PushAllStrings(alloc, env, host);
    if !ok { return; }
    ok := alloc.PushString([], host);
    assert ok ==> alloc.Contents() == c + SpawnStrings(exec, args, env);
  }

  /** offsets[i] is where the i-th string starts in strings laid out one after the other from `first`. */
  predicate OffsetsOf(offsets: seq<u32>, ss: seq<CString>, first: nat) {
    |offsets| == |ss| && forall i :: 0 <= i < |ss| ==> offsets[i] == first + |TerminatedAll(ss[..i])|
  }

  lemma {:induction false} StringInAll(ss: seq<CString>, i: nat)
    requires i < |ss|
    ensures StringHere(TerminatedAll(ss), |TerminatedAll(ss[..i])|, ss[i])
    decreases |ss|
  {
    hide StringHere;
    var init, last := ss[..|ss| - 1], ss[|ss| - 1];
    if i < |init| {
      StringInAll(init, i);
      assert init[..i] == ss[..i];
      StringGrows(TerminatedAll(init), Terminated(last), |TerminatedAll(ss[..i])|, ss[i]);
    } else {
      assert ss[..i] == init;
      StringLast(TerminatedAll(init), last);
    }
  }

  lemma StringGrows(data: seq<byte>, more: seq<byte>, o: nat, s: CString)
    requires StringHere(data, o, s)
    ensures StringHere(data + more, o, s)
  {
    assert (data + more)[o..o + |s|] == data[o..o + |s|];
  }

  lemma StringLast(data: seq<byte>, s: CString)
    ensures StringHere(data + Terminated(s), |data|, s)
  {
  }

  /** The bytes at offset `o` are the string and its terminator. */
  predicate StringHere(data: seq<byte>, o: nat, s: CString) {
    o + |s| < |data| && data[o..o + |s|] == s && data[o + |s|] == 0
  }

  lemma StringInside(data: seq<byte>, at: nat, block: seq<byte>, o: nat, s: CString)
    requires at + |block| <= |data| && data[at..at + |block|] == block && StringHere(block, o, s)
    ensures StringHere(data, at + o, s)
  {
    SliceOfSlice(data, at, at + |block|, o, o + |s|);
  }

  lemma StringsInside(data: seq<byte>, at: nat, ss: seq<CString>, offsets: seq<u32>)
    requires at + |TerminatedAll(ss)| <= |data| && data[at..at + |TerminatedAll(ss)|] == TerminatedAll(ss)
    requires OffsetsOf(offsets, ss, at)
    ensures forall i :: 0 <= i < |ss| ==> StringHere(data, offsets[i], ss[i])
  {
    hide StringHere, TerminatedAll;
    forall i | 0 <= i < |ss| ensures StringHere(data, offsets[i], ss[i]) {
      StringInAll(ss, i);
      StringInside(data, at, TerminatedAll(ss), |TerminatedAll(ss[..i])|, ss[i]);
    }
  }

  /**
   The pointers that are recorded for the stack environment point to the strings they are for, in
   the finished block.
   */
  lemma PointersMark(data: seq<byte>, block: nat, exec: CString, args: seq<CString>, env: seq<CString>, argv: seq<u32>, envp: seq<u32>)
    requires SpawnBlockAt(data, block, exec, args, env)
    requires OffsetsOf(argv, args, block + SPAWN_SIZE + |exec| + 1)
    requires OffsetsOf(envp, env, block + SPAWN_SIZE + |exec| + 1 + |TerminatedAll(args)| + 1)
    ensures StringHere(data, block + SPAWN_SIZE, exec)
    ensures forall i :: 0 <= i < |args| ==> StringHere(data, argv[i], args[i])
    ensures forall i :: 0 <= i < |env| ==> StringHere(data, envp[i], env[i])
  {
    hide TerminatedAll, OffsetsOf, Encode16, StringHere;
    var strings := SpawnStrings(exec, args, env);
    var (at, a, b) := (block + SPAWN_SIZE, |exec| + 1, |exec| + 1 + |TerminatedAll(args)| + 1);
    var (strs, envs) := (TerminatedAll(args), TerminatedAll(env));
    StringsApart(exec, strs, envs);
    StringInside(data, at, strings, 0, exec);
    SliceOfSlice(data, at, at + |strings|, a, a + |strs|);
    SliceOfSlice(data, at, at + |strings|, b, b + |envs|);
    StringsInside(data, at + a, args, argv);
    StringsInside(data, at + b, env, envp);
  }

  lemma StringsApart(exec: CString, strs: seq<byte>, envs: seq<byte>)
    ensures var (s, a) := (Terminated(exec) + strs + [0] + envs + [0], |exec| + 1);
      && StringHere(s, 0, exec)
      && s[a..a + |strs|] == strs && s[a + |strs| + 1..a + |strs| + 1 + |envs|] == envs
  {
    var s := Terminated(exec) + strs + [0] + envs + [0];
    assert s[0..|exec|] == exec;
  }

  /** The spawn header, with its type filled in. */
  method PushHeader(alloc: StartupSbrk, host: bool) returns (ok: bool)
    requires alloc.Valid() && alloc.offset + 16 + SPAWN_SIZE < 0x1_0000_0000
    modifies alloc, alloc.segment
    ensures ok ==> alloc.Valid() && alloc.lastOffset == AlignUp16(old(alloc.offset)) && alloc.offset == alloc.lastOffset + SPAWN_SIZE
    ensures ok ==> alloc.segment.data[alloc.lastOffset..alloc.lastOffset + 2] == Encode16(SPAWN_TYPE)
  {
    hide MappedFrom, Encode16, Wrap32, AlignUp16, Extends, Seg.CheckBounds;
    WrapSmall(AlignUp16(alloc.offset));
    WrapSmall(AlignUp16(alloc.offset) + SPAWN_SIZE);
    ok := alloc.Align(host);
    if !ok { return; }
    ok := alloc.Alloc(SPAWN_SIZE, host);
    if !ok { return; }
    SpliceRead(alloc.segment.data, alloc.lastOffset, Encode16(SPAWN_TYPE));
    alloc.Store(alloc.lastOffset, Encode16(SPAWN_TYPE));
  }

  /** Lay the spawn block out at the allocator's position, with pointers to its strings for the 32-bit stack environment. */
  method BuildSpawn(alloc: StartupSbrk, exec: CString, args: seq<CString>, env: seq<CString>, host: bool)
    returns (ok: bool, block: u32, argv: seq<u32>, envp: seq<u32>)
    requires alloc.Valid() && alloc.offset + 32 + SPAWN_SIZE + |SpawnStrings(exec, args, env)| < 0x1_0000_0000
    modifies alloc, alloc.segment
    ensures ok ==> alloc.Valid() && block == AlignUp16(old(alloc.offset))
    ensures ok ==> alloc.low <= block && block + SPAWN_SIZE + |SpawnStrings(exec, args, env)| <= alloc.offset
    ensures ok ==> SpawnBlockAt(alloc.segment.data, block, exec, args, env)
    ensures ok ==> OffsetsOf(argv, args, block + SPAWN_SIZE + |exec| + 1)
    ensures ok ==> OffsetsOf(envp, env, block + SPAWN_SIZE + |exec| + 1 + |TerminatedAll(args)| + 1)
  {
    hide TerminatedAll, SpawnStrings, MappedFrom, SpawnBlockAt, Encode16, Splice;
    argv, envp, block := [], [], 0;
    ok := PushHeader(alloc, host);
    if !ok { return; }
    block := alloc.lastOffset;
    ghost var start := alloc.Contents();
    SliceOfSlice(alloc.segment.data, alloc.low, alloc.offset, block - alloc.low, block - alloc.low + 2);
    ok, argv, envp := PushSpawnStrings(alloc, exec, args, env, host);
    if !ok { return; }
    ghost var before := alloc.segment.data;
    BlockContents(before, alloc.low, block, alloc.offset, start, SpawnStrings(exec, args, env));
    ok := FinishSpawn(alloc, block, |argv|, |envp|, host, exec, args, env);
  }

  /** The counts go into the header once they are known. */
  method FinishSpawn(alloc: StartupSbrk, block: u32, argc: nat, envc: nat, host: bool,
                     ghost exec: CString, ghost args: seq<CString>, ghost env: seq<CString>)
    returns (ok: bool)
    requires alloc.Valid() && alloc.offset + 16 < 0x1_0000_0000 && argc == |args| && envc == |env|
    requires var n := |SpawnStrings(exec, args, env)|;
      && block + SPAWN_SIZE + n <= |alloc.segment.data|
      && alloc.segment.data[block..block + 2] == Encode16(SPAWN_TYPE)
      && alloc.segment.data[block + SPAWN_SIZE..block + SPAWN_SIZE + n] == SpawnStrings(exec, args, env)
    modifies alloc, alloc.segment
    ensures ok ==> alloc.Valid() && SpawnBlockAt(alloc.segment.data, block, exec, args, env)
    ensures ok ==> alloc.offset >= old(alloc.offset)
  {
    hide SpawnStrings, MappedFrom, SpawnBlockAt, Encode16, Splice;
    ghost var before := alloc.segment.data;
    alloc.Store(block + ARGC_AT, Encode16(argc % 0x1_0000));
    alloc.Store(block + ENVC_AT, Encode16(envc % 0x1_0000));
    BlockFinished(before, alloc.segment.data, block, exec, args, env);
    ghost var done := alloc.segment.data;
    ok := alloc.Align(host);
    if ok {
      BlockStays(done, alloc.segment.data, block, exec, args, env);
    }
  }

  lemma BlockContents(data: seq<byte>, low: nat, block: nat, end: nat, start: seq<byte>, strings: seq<byte>)
    requires low <= block && low + |start| == block + SPAWN_SIZE && end == low + |start| + |strings| <= |data|
    requires data[low..end] == start + strings && start[block - low..block - low + 2] == Encode16(SPAWN_TYPE)
    ensures data[block..block + 2] == Encode16(SPAWN_TYPE)
    ensures data[block + SPAWN_SIZE..end] == strings
  {
    SliceOfSlice(data, low, end, block - low, block - low + 2);
    SliceOfSlice(data, low, end, |start|, |start| + |strings|);
    SliceOfSlice(start + strings, 0, |start|, block - low, block - low + 2);
    assert (start + strings)[..|start|] == start && (start + strings)[|start|..] == strings;
  }

  lemma BlockFinished(before: seq<byte>, after: seq<byte>, block: nat, exec: CString, args: seq<CString>, env: seq<CString>)
    requires var n := |SpawnStrings(exec, args, env)|;
      && block + SPAWN_SIZE + n <= |before|
      && before[block..block + 2] == Encode16(SPAWN_TYPE)
      && before[block + SPAWN_SIZE..block + SPAWN_SIZE + n] == SpawnStrings(exec, args, env)
    requires after == Splice(Splice(before, block + ARGC_AT, Encode16(|args| % 0x1_0000)), block + ENVC_AT, Encode16(|env| % 0x1_0000))
    ensures SpawnBlockAt(after, block, exec, args, env)
  {
  }

  /** The block survives further growth. */
  lemma BlockStays(data: seq<byte>, data': seq<byte>, block: nat, exec: CString, args: seq<CString>, env: seq<CString>)
    requires SpawnBlockAt(data, block, exec, args, env) && data <= data'
    ensures SpawnBlockAt(data', block, exec, args, env)
  {
  }
}
