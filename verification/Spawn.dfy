/**
 Reading a spawn message back: the string parsing of proc_exec_common (src/main_handler.cpp),
 byte by byte through MsgStreamReader (src/msg.h).
 */
module Spawn {
  import opened Words
  import opened Segments
  import opened Messages
  import opened MessageAccess
  import opened Startup

  // ----- what the reader sees: a string of bytes, and zeros for ever after it

  /** Where the C string that starts at `pos` ends: its terminator, or the end of the message. */
  function StringEnd(s: seq<byte>, pos: nat): (e: nat)
    requires pos <= |s|
    ensures pos <= e <= |s|
    decreases |s| - pos
  {
    if pos == |s| || s[pos] == 0 then pos else StringEnd(s, pos + 1)
  }

  function AfterString(s: seq<byte>, pos: nat): (q: nat)
    requires pos <= |s|
    ensures pos <= q <= |s|
  {
    var e := StringEnd(s, pos);
    if e < |s| then e + 1 else e
  }

  function StringAt(s: seq<byte>, pos: nat): (t: CString)
    requires pos <= |s|
  {
    StringHasNoZero(s, pos);
    s[pos..StringEnd(s, pos)]
  }

  lemma {:induction false} StringHasNoZero(s: seq<byte>, pos: nat)
    requires pos <= |s|
    ensures 0 !in s[pos..StringEnd(s, pos)]
    decreases |s| - pos
  {
    if pos < |s| && s[pos] != 0 {
      StringHasNoZero(s, pos + 1);
      assert s[pos..StringEnd(s, pos)] == [s[pos]] + s[pos + 1..StringEnd(s, pos + 1)];
    }
  }

  /** Position after n strings. */
  function AfterStrings(s: seq<byte>, pos: nat, n: nat): (q: nat)
    requires pos <= |s|
    ensures pos <= q <= |s|
  {
    if n == 0 then pos else AfterString(s, AfterStrings(s, pos, n - 1))
  }

  function StringsAt(s: seq<byte>, pos: nat, n: nat): (ts: seq<CString>)
    requires pos <= |s|
    ensures |ts| == n
  {
    if n == 0 then [] else StringsAt(s, pos, n - 1) + [StringAt(s, AfterStrings(s, pos, n - 1))]
  }

  datatype Parsed = Parsed(exec: CString, args: seq<CString>, env: seq<CString>)

  function ParseSpawn(s: seq<byte>, argc: nat, envc: nat): Parsed {
    var a := AfterString(s, 0);
    var e := AfterString(s, AfterStrings(s, a, argc));
    Parsed(StringAt(s, 0), StringsAt(s, a, argc), StringsAt(s, e, envc))
  }

  // ----- parsing undoes layout

  lemma {:induction false} EndOfTerminated(s: seq<byte>, pos: nat, t: CString, rest: seq<byte>)
    requires pos <= |s| && s[pos..] == Terminated(t) + rest
    ensures StringEnd(s, pos) == pos + |t| && AfterString(s, pos) == pos + |t| + 1 && StringAt(s, pos) == t
    decreases |t|
  {
    assert s[pos..][0] == s[pos];
    if t != [] {
      assert s[pos + 1..] == s[pos..][1..] == Terminated(t[1..]) + rest;
      EndOfTerminated(s, pos + 1, t[1..], rest);
      assert s[pos] != 0;
    }
    assert s[pos..pos + |t|] == s[pos..][..|t|] == t;
  }

  lemma LastString(ts: seq<CString>)
    requires ts != []
    ensures TerminatedAll(ts) == TerminatedAll(ts[..|ts| - 1]) + Terminated(ts[|ts| - 1])
  {
  }

  lemma {:induction false} StringsOfTerminated(s: seq<byte>, pos: nat, ts: seq<CString>, rest: seq<byte>)
    requires pos <= |s| && s[pos..] == TerminatedAll(ts) + rest
    ensures AfterStrings(s, pos, |ts|) == pos + |TerminatedAll(ts)| && StringsAt(s, pos, |ts|) == ts
    decreases |ts|
  {
    hide AfterString, StringAt, StringEnd, TerminatedAll, Terminated;
    if ts == [] {
      NoStrings();
    } else {
      var init, t := ts[..|ts| - 1], ts[|ts| - 1];
      LastString(ts);
      TerminatedLength(t);
      assert TerminatedAll(ts) + rest == TerminatedAll(init) + (Terminated(t) + rest);
      StringsOfTerminated(s, pos, init, Terminated(t) + rest);
      var q := pos + |TerminatedAll(init)|;
      assert s[q..] == s[pos..][|TerminatedAll(init)|..] == Terminated(t) + rest;
      EndOfTerminated(s, q, t, rest);
    }
  }

  /**
   For every executable name, argument list and environment of NUL-free strings, empty ones
   included, parsing the strings of the spawn block gives back exactly those lists, whatever
   follows them in the message.
   */
  lemma ParseUndoesLayout(exec: CString, args: seq<CString>, env: seq<CString>, rest: seq<byte>)
    ensures ParseSpawn(SpawnStrings(exec, args, env) + rest, |args|, |env|) == Parsed(exec, args, env)
  {
    hide TerminatedAll, AfterString, AfterStrings, StringAt, StringsAt, Terminated;
    var s := SpawnStrings(exec, args, env) + rest;
    var tailE := [0] + rest;
    var tailA: seq<byte> := [0] + (TerminatedAll(env) + tailE);
    assert s[0..] == Terminated(exec) + (TerminatedAll(args) + tailA);
    EndOfTerminated(s, 0, exec, TerminatedAll(args) + tailA);
    TerminatedLength(exec);
    var a := |exec| + 1;
    assert s[a..] == TerminatedAll(args) + tailA;
    StringsOfTerminated(s, a, args, tailA);
    var b := a + |TerminatedAll(args)|;
    TerminatedLength([]);
    assert s[b..] == Terminated([]) + (TerminatedAll(env) + tailE);
    EndOfTerminated(s, b, [], TerminatedAll(env) + tailE);
    assert s[b + 1..] == TerminatedAll(env) + tailE;
    StringsOfTerminated(s, b + 1, env, tailE);
  }

  lemma TerminatedLength(t: CString)
    ensures |Terminated(t)| == |t| + 1 && Terminated([]) == [0]
  {
  }

  // ----- the parser

  /** The contents of a fully accessible message. */
  function Content(m: Msg): (s: seq<byte>)
    requires m.Valid() && AllOk(m.segs, m.FlatOf(m.send))
    reads m
    ensures |s| == |m.FlatOf(m.send)|
  {
    Held(m.segs, m.mem, m.FlatOf(m.send))
  }

  /** The bytes of the header; a short message reads as garbage there. */
  function HeaderOf(content: seq<byte>): (h: seq<byte>)
    ensures |h| == SPAWN_SIZE
  {
    (content + Fill(OVERREAD, SPAWN_SIZE))[..SPAWN_SIZE]
  }

  /** The bytes behind the header. */
  function BodyOf(content: seq<byte>): seq<byte> {
    if |content| < SPAWN_SIZE then [] else content[SPAWN_SIZE..]
  }

  lemma AllOkParts(segs: SegTable, flat: seq<Loc>, k: nat)
    requires AllOk(segs, flat) && k <= |flat|
    ensures AllOk(segs, flat[..k]) && AllOk(segs, flat[k..])
  {
    hide Addr;
  }

  lemma HeaderWindow(segs: SegTable, mem: seq<byte>, flat: seq<Loc>)
    requires Backed(segs, mem) && AllOk(segs, flat)
    ensures var w := Window(flat, 0, SPAWN_SIZE);
      AllOk(segs, w) && Held(segs, mem, w) + Fill(OVERREAD, SPAWN_SIZE - |w|) == HeaderOf(Held(segs, mem, flat))
  {
  }

  /** Where the strings begin: behind the header, or at the end of a message that is too short. */
  function BodyStart(flat: seq<Loc>): (n: nat)
    ensures n <= |flat|
  {
    if SPAWN_SIZE < |flat| then SPAWN_SIZE else |flat|
  }

  /** How far the body can be read. */
  function BodyEnd(segs: SegTable, parts: seq<Part>): (e: nat)
    ensures BodyStart(Flat(parts)) <= e <= |Flat(parts)|
  {
    Readable(segs, parts, BodyStart(Flat(parts)))
  }

  /** The body as far as it can be read. */
  function Body(segs: SegTable, mem: seq<byte>, parts: seq<Part>): (s: seq<byte>)
    requires Backed(segs, mem)
    ensures |s| == BodyEnd(segs, parts) - BodyStart(Flat(parts))
  {
    Held(segs, mem, Flat(parts)[BodyStart(Flat(parts))..BodyEnd(segs, parts)])
  }

  predicate Whole(segs: SegTable, parts: seq<Part>) { BodyEnd(segs, parts) == |Flat(parts)| }

  /** A reader in step with the body s; what follows s is the end of the message if it is whole, or else a fault. */
  predicate InStep(m: Msg, r: MsgStreamReader, s: seq<byte>, whole: bool, pos: nat)
    reads m, r, r.it
  {
    && m.Valid() && r.Valid(m.mem) && r.segs == m.segs && r.it.table == m.send
    && var parts := m.send.Parts(m.mem);
       && s == Body(m.segs, m.mem, parts) && whole == Whole(m.segs, parts) && pos <= |s|
       && r.Pos() == BodyStart(Flat(parts)) + pos && r.Limit(m.mem) == BodyEnd(m.segs, parts)
  }

  /** One character of the stream: the body's byte, or 0 beyond the end of the message; None for a fault. */
  method NextChar(m: Msg, r: MsgStreamReader, ghost s: seq<byte>, ghost whole: bool, ghost pos: nat) returns (c: Option<byte>)
    requires pos <= |s| && InStep(m, r, s, whole, pos)
    modifies r, r.it
    ensures c.None? <==> pos == |s| && !whole
    ensures c.Some? ==> InStep(m, r, s, whole, if pos < |s| then pos + 1 else pos)
    ensures c.Some? ==> c.value == if pos < |s| then s[pos] else 0
  {
    hide Addr, AllOk, Held, Flat, Table.Parts, Iterator.ValidFor, MsgStreamReader.Valid, Backed, Readable, BodyStart;
    ghost var parts := m.send.Parts(m.mem);
    c := r.Get(m.mem, 0);
    if pos < |s| {
      CharAt(m.segs, m.mem, Flat(parts), BodyStart(Flat(parts)), BodyEnd(m.segs, parts), pos, c.value);
    }
  }

  lemma CharAt(segs: SegTable, mem: seq<byte>, flat: seq<Loc>, lo: nat, hi: nat, k: nat, c: byte)
    requires Backed(segs, mem) && lo <= hi <= |flat| && AllOk(segs, flat[lo..hi]) && k < hi - lo
    requires ByteAt(segs, mem, flat[lo + k], c)
    ensures Held(segs, mem, flat[lo..hi])[k] == c
  {
  }

  /** The string at pos ends within the body, or the body is followed by nothing but zeros. */
  predicate Ends(s: seq<byte>, whole: bool, pos: nat)
    requires pos <= |s|
  {
    whole || StringEnd(s, pos) < |s|
  }

  /** read_string: append one string and its terminator to the buffer; false for a fault. */
  method ReadString(m: Msg, r: MsgStreamReader, buf: seq<byte>, ghost s: seq<byte>, ghost whole: bool, ghost pos: nat)
    returns (ok: bool, buf': seq<byte>)
    requires pos <= |s| && InStep(m, r, s, whole, pos)
    modifies r, r.it
    ensures ok <==> Ends(s, whole, pos)
    ensures ok ==> InStep(m, r, s, whole, AfterString(s, pos))
    ensures ok ==> buf' == buf + StringAt(s, pos) + [0]
  {
    hide InStep;
    buf' := buf;
    ghost var p := pos;
    var c := NextChar(m, r, s, whole, p);
    while c.Some? && c.value != 0
      invariant p <= |s| && StringEnd(s, p) == StringEnd(s, pos) && pos <= p
      invariant buf' == buf + s[pos..p]
      invariant c.None? <==> p == |s| && !whole
      invariant c.Some? ==> InStep(m, r, s, whole, if p < |s| then p + 1 else p)
      invariant c.Some? ==> c.value == if p < |s| then s[p] else 0
      decreases |s| - p
    {
      buf' := buf' + [c.value];
      p := p + 1;
      c := NextChar(m, r, s, whole, p);
    }
    if c.None? {
      return false, buf';
    }
    buf' := buf' + [0];
    ok := true;
  }

  /** The C string that begins at an offset of the buffer. */
  function BufferString(buf: seq<byte>, o: nat): CString
    requires o <= |buf|
  {
    StringAt(buf, o)
  }

  /** The offsets mark the strings ts in the buffer. */
  predicate Marks(buf: seq<byte>, offsets: seq<nat>, ts: seq<CString>) {
    |offsets| == |ts| && forall i :: 0 <= i < |ts| ==> StringHere(buf, offsets[i], ts[i])
  }

  lemma MarkedIsString(buf: seq<byte>, o: nat, t: CString)
    requires StringHere(buf, o, t)
    ensures o <= |buf| && BufferString(buf, o) == t
  {
    assert buf[o..] == buf[o..o + |t|] + [buf[o + |t|]] + buf[o + |t| + 1..];
    EndOfTerminated(buf, o, t, buf[o + |t| + 1..]);
  }

  lemma MarksGrow(buf: seq<byte>, more: seq<byte>, offsets: seq<nat>, ts: seq<CString>)
    requires Marks(buf, offsets, ts)
    ensures Marks(buf + more, offsets, ts)
  {
  }

  /** The first n strings from pos on all end. */
  predicate AllEnd(s: seq<byte>, whole: bool, pos: nat, n: nat)
    requires pos <= |s|
  {
    n == 0 || (AllEnd(s, whole, pos, n - 1) && Ends(s, whole, AfterStrings(s, pos, n - 1)))
  }

  lemma {:induction false} AllEndPrefix(s: seq<byte>, whole: bool, pos: nat, i: nat, n: nat)
    requires pos <= |s| && i <= n && AllEnd(s, whole, pos, n)
    ensures AllEnd(s, whole, pos, i)
    decreases n
  {
    if i < n {
      AllEndPrefix(s, whole, pos, i, n - 1);
    }
  }

  /** The two counting loops of the parser. */
  method ReadStrings(m: Msg, r: MsgStreamReader, n: nat, buf: seq<byte>, ghost s: seq<byte>, ghost whole: bool, ghost pos: nat)
    returns (ok: bool, buf': seq<byte>, offsets: seq<nat>)
    requires pos <= |s| && InStep(m, r, s, whole, pos)
    modifies r, r.it
    ensures ok <==> AllEnd(s, whole, pos, n)
    ensures ok ==> InStep(m, r, s, whole, AfterStrings(s, pos, n))
    ensures ok ==> buf <= buf' && Marks(buf', offsets, StringsAt(s, pos, n))
  {
    hide InStep, AfterString, StringAt, StringHere, Ends;
    buf', offsets, ok := buf, [], true;
    for i := 0 to n
      invariant ok && AllEnd(s, whole, pos, i) && InStep(m, r, s, whole, AfterStrings(s, pos, i))
      invariant buf <= buf' && Marks(buf', offsets, StringsAt(s, pos, i))
    {
      ghost var q := AfterStrings(s, pos, i);
      ghost var b0 := buf';
      offsets := offsets + [|buf'|];
      ok, buf' := ReadString(m, r, buf', s, whole, q);
      if !ok {
        if AllEnd(s, whole, pos, n) {
          AllEndPrefix(s, whole, pos, i + 1, n);
        }
        return;
      }
      MarksGrow(b0, StringAt(s, q) + [0], offsets[..i], StringsAt(s, pos, i));
      assert buf' == b0 + (StringAt(s, q) + [0]);
      MarkedNew(b0, StringAt(s, q), buf');
      MarksAppend(buf', offsets[..i], StringsAt(s, pos, i), |b0|, StringAt(s, q));
      assert offsets == offsets[..i] + [|b0|];
    }
  }

  lemma MarkedNew(before: seq<byte>, t: CString, buf: seq<byte>)
    requires buf == before + (t + [0])
    ensures StringHere(buf, |before|, t)
  {
  }

  lemma MarksAppend(buf: seq<byte>, offsets: seq<nat>, ts: seq<CString>, o: nat, t: CString)
    requires Marks(buf, offsets, ts) && StringHere(buf, o, t)
    ensures Marks(buf, offsets + [o], ts + [t])
  {
    hide StringHere;
  }

  /** Pointers made from the offsets once the buffer does not move any more. */
  method Resolve(buf: seq<byte>, offsets: seq<nat>, ghost ts: seq<CString>) returns (strings: seq<CString>)
    requires Marks(buf, offsets, ts)
    ensures strings == ts
  {
    hide BufferString;
    strings := [];
    for i := 0 to |offsets|
      invariant |strings| == i && strings == ts[..i]
    {
      MarkedIsString(buf, offsets[i], ts[i]);
      strings := strings + [BufferString(buf, offsets[i])];
    }
  }

  lemma ReaderInStep(m: Msg, r: MsgStreamReader)
    requires m.Valid() && r.Valid(m.mem) && r.segs == m.segs && r.it.table == m.send
    requires r.Pos() == BodyStart(m.FlatOf(m.send))
    requires r.Limit(m.mem) == BodyEnd(m.segs, m.send.Parts(m.mem))
    ensures var parts := m.send.Parts(m.mem); InStep(m, r, Body(m.segs, m.mem, parts), Whole(m.segs, parts), 0)
  {
    hide Flat, Table.Parts, Held, Readable, Backed, MsgStreamReader.Valid, BodyStart;
  }

  /** All the strings that the parser asks for end: name, arguments, separator, environment, final empty string. */
  predicate SpawnEnds(s: seq<byte>, whole: bool, argc: nat, envc: nat) {
    && Ends(s, whole, 0)
    && var a := AfterString(s, 0);
       && AllEnd(s, whole, a, argc)
       && var b := AfterStrings(s, a, argc);
          && Ends(s, whole, b)
          && var e := AfterString(s, b);
             AllEnd(s, whole, e, envc) && Ends(s, whole, AfterStrings(s, e, envc))
  }

  /** The counts of the header. */
  function Argc(h: seq<byte>): nat
    requires |h| == SPAWN_SIZE
  {
    Decode16(h[ARGC_AT..ENVC_AT])
  }

  function Envc(h: seq<byte>): nat
    requires |h| == SPAWN_SIZE
  {
    Decode16(h[ENVC_AT..SPAWN_SIZE])
  }

  /** The header as it is read; None for a fault. */
  function Header(segs: SegTable, mem: seq<byte>, parts: seq<Part>): (h: Option<seq<byte>>)
    requires Backed(segs, mem)
    ensures h.Some? ==> |h.value| == SPAWN_SIZE
  {
    var w := Window(Flat(parts), 0, SPAWN_SIZE);
    if AllOk(segs, w) then Some(Held(segs, mem, w) + Fill(OVERREAD, SPAWN_SIZE - |w|)) else None
  }

  /** What proc_exec_common makes of a message; None for a fault on the way. */
  function SpawnOutcome(segs: SegTable, mem: seq<byte>, parts: seq<Part>): Option<Parsed>
    requires Backed(segs, mem)
  {
    var h := Header(segs, mem, parts);
    if h.None? then None
    else
      var s := Body(segs, mem, parts);
      if SpawnEnds(s, Whole(segs, parts), Argc(h.value), Envc(h.value)) then Some(ParseSpawn(s, Argc(h.value), Envc(h.value)))
      else None
  }

  /** What a fully accessible message means to proc_exec_common. */
  function MessageMeans(content: seq<byte>): Parsed {
    var h := HeaderOf(content);
    ParseSpawn(BodyOf(content), Argc(h), Envc(h))
  }

  lemma {:induction false} WholeAllEnd(s: seq<byte>, pos: nat, n: nat)
    requires pos <= |s|
    ensures AllEnd(s, true, pos, n)
  {
    if n > 0 {
      WholeAllEnd(s, pos, n - 1);
    }
  }

  /** A message that is accessible throughout never faults, and how it is cut into parts makes no difference. */
  lemma AccessibleOutcome(m: Msg)
    requires m.Valid() && AllOk(m.segs, m.FlatOf(m.send))
    ensures SpawnOutcome(m.segs, m.mem, m.send.Parts(m.mem)) == Some(MessageMeans(Content(m)))
  {
    hide Flat, Table.Parts, Held, Backed, HeaderOf, Window, ParseSpawn, AllOk, Readable, Argc, Envc, AfterString, AfterStrings, AllEnd;
    var parts := m.send.Parts(m.mem);
    var flat := Flat(parts);
    HeaderWindow(m.segs, m.mem, flat);
    AllReadable(m.segs, parts, BodyStart(flat));
    BodyIsRest(m.segs, m.mem, parts);
    var s := Body(m.segs, m.mem, parts);
    var h := HeaderOf(Content(m));
    var a := AfterString(s, 0);
    var e := AfterString(s, AfterStrings(s, a, Argc(h)));
    WholeAllEnd(s, a, Argc(h));
    WholeAllEnd(s, e, Envc(h));
  }

  lemma BodyIsRest(segs: SegTable, mem: seq<byte>, parts: seq<Part>)
    requires Backed(segs, mem) && AllOk(segs, Flat(parts)) && Whole(segs, parts)
    ensures Body(segs, mem, parts) == BodyOf(Held(segs, mem, Flat(parts)))
  {
    hide Flat, Backed, Readable, Addr, Held;
    var flat := Flat(parts);
    var n := BodyStart(flat);
    AllOkParts(segs, flat, n);
    assert flat[..n] + flat[n..] == flat && flat[n..|flat|] == flat[n..];
    BytesAppend(segs, mem, flat[..n], flat[n..]);
    assert Held(segs, mem, flat)[n..] == Held(segs, mem, flat[n..]);
  }

  lemma MarksPrefix(buf: seq<byte>, longer: seq<byte>, offsets: seq<nat>, ts: seq<CString>)
    requires Marks(buf, offsets, ts) && buf <= longer
    ensures Marks(longer, offsets, ts)
  {
  }

  /** All strings of the message into one buffer, with the offsets of each; false for a fault. */
  method ReadBody(m: Msg, r: MsgStreamReader, argc: nat, envc: nat, ghost s: seq<byte>, ghost whole: bool)
    returns (ok: bool, buf: seq<byte>, argvo: seq<nat>, envo: seq<nat>)
    requires InStep(m, r, s, whole, 0)
    modifies r, r.it
    ensures ok <==> SpawnEnds(s, whole, argc, envc)
    ensures ok ==> var p := ParseSpawn(s, argc, envc);
      Marks(buf, [0], [p.exec]) && Marks(buf, argvo, p.args) && Marks(buf, envo, p.env)
  {
    hide InStep, StringAt, AfterString, AfterStrings, StringsAt, Marks, Ends, AllEnd;
    ghost var p := ParseSpawn(s, argc, envc);
    buf, argvo, envo := [], [], [];
    ok, buf := ReadString(m, r, [], s, whole, 0);
    if !ok { return; }
    FirstMarked(buf, p.exec);
    ghost var b0 := buf;
    ghost var pos := AfterString(s, 0);
    ok, buf, argvo := ReadStrings(m, r, argc, buf, s, whole, pos);
    if !ok { return; }
    ghost var b1 := buf;
    pos := AfterStrings(s, pos, argc);
    ok, buf := ReadString(m, r, buf, s, whole, pos);  // the separating empty string
    if !ok { return; }
    ghost var b2 := buf;
    pos := AfterString(s, pos);
    ok, buf, envo := ReadStrings(m, r, envc, buf, s, whole, pos);
    if !ok { return; }
    ghost var b3 := buf;
    pos := AfterStrings(s, pos, envc);
    ok, buf := ReadString(m, r, buf, s, whole, pos);  // the final empty string
    if !ok { return; }
    assert b0 <= b1 <= b2 <= b3 <= buf;
    MarksPrefix(b0, buf, [0], [p.exec]);
    MarksPrefix(b1, buf, argvo, p.args);
    MarksPrefix(b3, buf, envo, p.env);
  }

  lemma FirstMarked(buf: seq<byte>, t: CString)
    requires buf == [] + t + [0]
    ensures Marks(buf, [0], [t])
  {
  }

  /** proc_exec_common up to the point where the path, argv and envp are known; None for a fault. */
  method ParseMessage(m: Msg) returns (r: Option<Parsed>)
    requires m.Valid()
    ensures r == SpawnOutcome(m.segs, m.mem, m.send.Parts(m.mem))
  {
    hide InStep, Decode16, Marks, Held, Window, AllOk, Backed, Flat, Table.Parts, Table.Inside, MsgStreamReader.Valid, Fill, ParseSpawn, Readable, SpawnEnds, Body, Whole;
    ghost var parts := m.send.Parts(m.mem);
    ghost var s := Body(m.segs, m.mem, parts);
    ghost var whole := Whole(m.segs, parts);
    var header := m.Read(0, SPAWN_SIZE);
    if header.None? {
      return None;
    }
    var argc, envc := Decode16(header.value[ARGC_AT..ENVC_AT]), Decode16(header.value[ENVC_AT..SPAWN_SIZE]);
    ghost var p := ParseSpawn(s, argc, envc);
    var reader := new MsgStreamReader(m.segs, m.mem, m.send, SPAWN_SIZE);
    ReaderInStep(m, reader);
    var ok, buf, argvo, envo := ReadBody(m, reader, argc, envc, s, whole);
    if !ok {
      return None;
    }
    var argv := Resolve(buf, argvo, p.args);
    var envp := Resolve(buf, envo, p.env);
    var name := Resolve(buf, [0], [p.exec]);
    return Some(Parsed(name[0], argv, envp));
  }

  /**
   The block that start-up lays out, sent as a message in any number of parts, parses back to the
   lists it was laid out from, when the counts fit their 16-bit fields.
   */
  lemma SpawnRoundTrip(data: seq<byte>, block: nat, exec: CString, args: seq<CString>, env: seq<CString>, content: seq<byte>)
    requires SpawnBlockAt(data, block, exec, args, env) && |args| < 0x1_0000 && |env| < 0x1_0000
    requires block + |content| <= |data| && content == data[block..block + |content|]
    requires |content| >= SPAWN_SIZE + |SpawnStrings(exec, args, env)|
    ensures MessageMeans(content) == Parsed(exec, args, env)
  {
    hide SpawnStrings, ParseSpawn, SpawnBlockAt, HeaderOf, Argc, Envc;
    BlockHeader(data, block, exec, args, env, content);
    var rest := BlockBody(data, block, exec, args, env, content);
    ParseUndoesLayout(exec, args, env, rest);
  }

  lemma BlockHeader(data: seq<byte>, block: nat, exec: CString, args: seq<CString>, env: seq<CString>, content: seq<byte>)
    requires SpawnBlockAt(data, block, exec, args, env) && |args| < 0x1_0000 && |env| < 0x1_0000
    requires block + |content| <= |data| && content == data[block..block + |content|] && |content| >= SPAWN_SIZE
    ensures Argc(HeaderOf(content)) == |args| && Envc(HeaderOf(content)) == |env|
  {
    hide SpawnStrings;
    assert HeaderOf(content) == content[..SPAWN_SIZE];
    SliceOfSlice(data, block, block + |content|, 0, SPAWN_SIZE);
    SliceOfSlice(data, block, block + SPAWN_SIZE, ARGC_AT, ENVC_AT);
    SliceOfSlice(data, block, block + SPAWN_SIZE, ENVC_AT, SPAWN_SIZE);
  }

  lemma BlockBody(data: seq<byte>, block: nat, exec: CString, args: seq<CString>, env: seq<CString>, content: seq<byte>)
    returns (rest: seq<byte>)
    requires SpawnBlockAt(data, block, exec, args, env)
    requires block + |content| <= |data| && content == data[block..block + |content|]
    requires |content| >= SPAWN_SIZE + |SpawnStrings(exec, args, env)|
    ensures BodyOf(content) == SpawnStrings(exec, args, env) + rest
  {
    hide SpawnStrings, Encode16;
    var n := |SpawnStrings(exec, args, env)|;
    var end := block + |content|;
    SliceOfSlice(data, block, end, SPAWN_SIZE, |content|);
    SliceOfSlice(data, block + SPAWN_SIZE, end, 0, n);
    rest := content[SPAWN_SIZE..][n..];
  }

  /** The block that lies in a segment, sent in any cut into parts, parses back. */
  lemma SpawnSent(m: Msg, sel: u16, block: u32, data: seq<byte>, exec: CString, args: seq<CString>, env: seq<CString>)
    requires m.Valid() && SelectorId(sel) in m.segs && |args| < 0x1_0000 && |env| < 0x1_0000
    requires var (seg, len) := (m.segs[SelectorId(sel)], SPAWN_SIZE + |SpawnStrings(exec, args, env)|);
      && SpawnBlockAt(data, block, exec, args, env) && seg.CheckBounds(block, len) && len < 0x1_0000_0000
      && seg.location + |data| <= |m.mem| && m.mem[seg.location..seg.location + |data|] == data
      && m.FlatOf(m.send) == PartLocs(Part(sel, block, len))
    ensures SpawnOutcome(m.segs, m.mem, m.send.Parts(m.mem)) == Some(Parsed(exec, args, env))
  {
    hide SpawnStrings, SpawnOutcome, MessageMeans, Backed, Held, PartLocs, Flat, Table.Parts, AllOk, Seg.CheckBounds;
    var len := SPAWN_SIZE + |SpawnStrings(exec, args, env)|;
    var loc := m.segs[SelectorId(sel)].location;
    BytesOfRange(m.segs, m.mem, Part(sel, block, len));
    SliceOfSlice(m.mem, loc, loc + |data|, block, block + len);
    SpawnRoundTrip(data, block, exec, args, env, data[block..block + len]);
    AccessibleOutcome(m);
  }

  /**
   From end to end: the block is built at start-up, and a message made of it, cut into whatever
   parts, empty ones included, is parsed to exactly the lists the block was built from. `around`
   is the rest of memory.
   */
  method BuildThenParse(alloc: StartupSbrk, sel: u16, exec: CString, args: seq<CString>, env: seq<CString>, host: bool,
                        parts: seq<Part>, around: nat -> byte)
    returns (ok: bool, r: Option<Parsed>)
    requires alloc.Valid() && |args| < 0x1_0000 && |env| < 0x1_0000
    requires var len := SPAWN_SIZE + |SpawnStrings(exec, args, env)|;
      alloc.offset + 32 + len < 0x1_0000_0000 && Flat(parts) == PartLocs(Part(sel, AlignUp16(alloc.offset), len))
    modifies alloc, alloc.segment
    ensures ok ==> r == Some(Parsed(exec, args, env))
  {
    hide SpawnStrings, SpawnOutcome, SpawnBlockAt, PartLocs, Flat, MappedFrom, Seg.CheckBounds, OffsetsOf, AlignUp16;
    r := None;
    var block, argv, envp;
    ok, block, argv, envp := BuildSpawn(alloc, exec, args, env, host);
    if !ok {
      return;
    }
    var seg := alloc.segment.State();
    ChunkInBounds(seg, alloc.low, block, SPAWN_SIZE + |SpawnStrings(exec, args, env)|);
    var mem := seq<byte>(seg.location, around) + alloc.segment.data;
    var m := new Msg(map[SelectorId(sel) := seg], mem, Copied(parts), Copied([]));
    assert m.send.Parts(mem) == parts;
    SpawnSent(m, sel, block, alloc.segment.data, exec, args, env);
    r := ParseMessage(m);
  }
}
