/**
 The map between 32-bit host pids and 15-bit QNX pids, and its use around fork
 (src/qnx_pid.cpp, src/main_handler.cpp, src/process.cpp).
 */
module PidMaps {
  import opened Words

  const START: int := 10
  const LAST: int := 32767
  const RANGE: int := 32758

  datatype PidType = PERMANENT | ROOT_PARENT | SELF | CHILD | SID | PGID

  datatype QnxPid = QnxPid(typ: PidType, qnxPid: int, hostPid: int)

  /** The ordered map by QNX pid, and the reverse index; its values are pointers to entries of the first. */
  datatype Pids = Pids(qnx: map<int, QnxPid>, reverse: map<int, int>)

  const LEAST_KEY: int := -32768

  /** The keys of the ordered map are 16-bit. */
  predicate KeysOk(keys: set<int>) { forall k :: k in keys ==> LEAST_KEY <= k <= LAST }

  // ----- compression

  function CompressPid(host: int): u16 {
    var h := if host < START then host + RANGE else host;
    (START + Remainder(h - START, RANGE)) % 0x1_0000
  }

  function RandomizePid(host: int): u16 { START + Wrap32(START + host * 3779) % RANGE }

  /** Every host pid from -32748 on is compressed into the pid range, and small ones stay as they are. */
  lemma CompressInRange(host: int)
    requires host >= START - RANGE
    ensures START <= CompressPid(host) <= LAST
    ensures START <= host <= LAST ==> CompressPid(host) == host
    ensures START <= RandomizePid(host) <= LAST
  {
  }

  /** Compression keeps the host pid modulo the size of the range; the hash is linear as long as it does not wrap. */
  lemma CompressCongruent(host: int)
    requires host >= START - RANGE
    ensures ((CompressPid(host) as int) - host) % RANGE == 0
    ensures 0 <= START + 3779 * host < 0x1_0000_0000 ==> ((RandomizePid(host) as int) - 2 * START - 3779 * host) % RANGE == 0
  {
    SameModulo(if host < START then host + RANGE - START else host - START);
    assert host < START ==> (host + RANGE - host) % RANGE == 0;
    SameModulo(Wrap32(START + host * 3779));
    WrapSmall(START + 3779 * host);
  }

  lemma SameModulo(x: int)
    ensures (x % RANGE - x) % RANGE == 0 && (x >= 0 ==> (x % RANGE + RANGE - x) % RANGE == 0)
  {
    var q := x / RANGE;
    assert x % RANGE - x == RANGE * (-q);
    assert x % RANGE + RANGE - x == RANGE * (1 - q);
  }

  // ----- the ordered map's iterator

  /** lower_bound: the least key that is not below k. */
  function KeyFrom(keys: set<int>, k: int): Option<int>
    decreases LAST + 1 - k
  {
    if k > LAST then None else if k in keys then Some(k) else KeyFrom(keys, k + 1)
  }

  lemma {:induction false} KeyFromLeast(keys: set<int>, k: int)
    requires KeysOk(keys)
    ensures match KeyFrom(keys, k)
      case None => forall j :: j in keys ==> j < k
      case Some(i) => k <= i && i in keys && forall j :: j in keys ==> j < k || i <= j
    decreases LAST + 1 - k
  {
    if k <= LAST && k !in keys {
      KeyFromLeast(keys, k + 1);
    }
  }

  /** The least pid in [from, last] that is not a key, or last + 1. */
  function FirstFree(keys: set<int>, from: int, last: int): (p: int)
    requires from <= last + 1
    ensures from <= p <= last + 1 && (p <= last ==> p !in keys) && forall j :: from <= j < p ==> j in keys
    decreases last + 1 - from
  {
    if from == last + 1 || from !in keys then from else FirstFree(keys, from + 1, last)
  }

  // ----- allocation

  /** The map's first key lies below the pids that are handed out, as pids 1 and 2 do since start-up. */
  predicate HasLowKey(keys: set<int>) {
    KeyFrom(keys, LEAST_KEY).Some? && KeyFrom(keys, LEAST_KEY).value < START
  }

  lemma HasLowKeyExact(keys: set<int>)
    requires KeysOk(keys)
    ensures HasLowKey(keys) <==> exists k :: k in keys && k < START
  {
    KeyFromLeast(keys, LEAST_KEY);
  }

  lemma FirstFreeIs(keys: set<int>, from: int, last: int, p: int)
    requires from <= p <= last + 1 && (p <= last ==> p !in keys) && forall j :: from <= j < p ==> j in keys
    ensures FirstFree(keys, from, last) == p
  {
  }

  /**
   What alloc_empty finds: the compressed pid, or else the first free pid from the randomized one
   on. When there is none up to the last, the iterator restarts at the map's lowest key; if that
   is below the start pid, the search ends there with the start pid, taken or not.
   */
  function FindPid(keys: set<int>, host: int): Option<int>
    requires host >= START - RANGE
  {
    CompressInRange(host);
    var c, r := CompressPid(host) as int, RandomizePid(host) as int;
    if c !in keys then Some(c)
    else
      var p := FirstFree(keys, r, LAST);
      if p <= LAST then Some(p)
      else if r == START then None
      else if HasLowKey(keys) then Some(START)
      else
        var q := FirstFree(keys, START, r - 1);
        if q < r then Some(q) else None
  }

  /** The guard of the branch that goes wrong: everything probed is taken, and so is the start pid it wraps to. */
  predicate Overwrites(keys: set<int>, host: int)
    requires host >= START - RANGE
  {
    CompressInRange(host);
    && CompressPid(host) as int in keys && FirstFree(keys, RandomizePid(host), LAST) > LAST
    && RandomizePid(host) as int != START && HasLowKey(keys) && START in keys
  }

  /** An allocated pid lies in the range, and it was free exactly when the search did not wrap onto a taken start pid. */
  lemma FoundPidFresh(keys: set<int>, host: int)
    requires host >= START - RANGE && FindPid(keys, host).Some?
    ensures START <= FindPid(keys, host).value <= LAST
    ensures FindPid(keys, host).value !in keys <==> !Overwrites(keys, host)
  {
  }

  /**
   Which pid is found: the compressed one if it is free; or else the first free one from the
   randomized one on; or else, after a wrap, the start pid or the first free one in front.
   */
  lemma FoundIsFirst(keys: set<int>, host: int)
    requires host >= START - RANGE && FindPid(keys, host).Some?
    ensures var (c, r, p) := (CompressPid(host) as int, RandomizePid(host) as int, FindPid(keys, host).value);
      && (c !in keys ==> p == c)
      && (c in keys && p >= r && p !in keys ==> forall q :: r <= q < p ==> q in keys)
      && (c in keys && p < r ==>
            && (forall q :: r <= q <= LAST ==> q in keys)
            && if HasLowKey(keys) then p == START else forall q :: START <= q < p ==> q in keys)
  {
    hide CompressPid, RandomizePid, HasLowKey;
    CompressInRange(host);
  }

  /** The search gives up only when every pid of the range is taken. */
  lemma FullIsFull(keys: set<int>, host: int)
    requires host >= START - RANGE && FindPid(keys, host).None?
    ensures forall p :: START <= p <= LAST ==> p in keys
  {
  }

  /** A map in which an allocation hands out pid 10 although it is taken. */
  lemma OverwriteHappens()
    ensures var keys := {1, 2, 10, 21307, 32767}; Overwrites(keys, 21307) && FindPid(keys, 21307) == Some(10)
  {
    var keys := {1, 2, 10, 21307, 32767};
    assert CompressPid(21307) == 21307 && RandomizePid(21307) == 32767;
    HasLowKeyExact(keys);
    assert 1 in keys;
    FirstFreeIs(keys, 32767, LAST, 32768);
  }

  // ----- the state after each operation

  /** The entry for a host pid at key p; the reverse index gets it unless there is no host pid. */
  function Enter(s: Pids, p: int, host: int, typ: PidType, index: bool): Pids {
    Pids(s.qnx[p := QnxPid(typ, p, host)], if index then s.reverse[host := p] else s.reverse)
  }

  datatype Alloc = Full | NoHost | Entry(s: Pids, pid: int)

  function AllocChild(s: Pids, host: int): Alloc
    requires host >= START - RANGE
  {
    match FindPid(s.qnx.Keys, host)
    case None => Full
    case Some(p) => Entry(Enter(s, p, host, CHILD, host >= 0), p)
  }

  function AllocRelated(s: Pids, host: int, typ: PidType): Alloc
    requires host >= START - RANGE
  {
    if host == -1 then NoHost
    else if host in s.reverse then Entry(s, s.reverse[host])
    else
      match FindPid(s.qnx.Keys, host)
      case None => Full
      case Some(p) => Entry(Enter(s, p, host, typ, true), p)
  }

  function AllocPermanent(s: Pids, pid: int, host: int): Pids { Enter(s, pid, host, PERMANENT, host >= 0) }

  function Free(s: Pids, pid: int): Pids
    requires pid in s.qnx
  {
    var e := s.qnx[pid];
    Pids(s.qnx - {e.qnxPid}, if e.hostPid > 0 && e.typ == CHILD then s.reverse - {e.hostPid} else s.reverse)
  }

  /** A child's new entry is in both maps, everything else is as before. */
  lemma ChildEntered(s: Pids, host: int)
    requires host >= START - RANGE && AllocChild(s, host).Entry?
    ensures var (t, p) := (AllocChild(s, host).s, AllocChild(s, host).pid);
      && Some(p) == FindPid(s.qnx.Keys, host)
      && p in t.qnx && t.qnx[p] == QnxPid(CHILD, p, host)
      && (forall q :: q != p ==> (q in t.qnx <==> q in s.qnx) && (q in s.qnx ==> t.qnx[q] == s.qnx[q]))
      && (host >= 0 ==> host in t.reverse && t.reverse[host] == p)
      && (forall h :: h != host || host < 0 ==> (h in t.reverse <==> h in s.reverse) && (h in s.reverse ==> t.reverse[h] == s.reverse[h]))
  {
    hide FindPid;
  }

  /** A known host pid leads to its own entry; an unknown one gets an entry of the type asked for. */
  lemma RelatedEntered(s: Pids, host: int, typ: PidType)
    requires Inverse(s) && host >= START - RANGE && AllocRelated(s, host, typ).Entry?
    ensures var (t, p) := (AllocRelated(s, host, typ).s, AllocRelated(s, host, typ).pid);
      && p in t.qnx && t.qnx[p].hostPid == host && t.qnx[p].qnxPid == p
      && host in t.reverse && t.reverse[host] == p
      && (host in s.reverse ==> t == s)
      && (host !in s.reverse ==> t.qnx[p].typ == typ && Some(p) == FindPid(s.qnx.Keys, host))
      && (forall q :: q != p ==> (q in t.qnx <==> q in s.qnx) && (q in s.qnx ==> t.qnx[q] == s.qnx[q]))
      && (forall h :: h != host ==> (h in t.reverse <==> h in s.reverse) && (h in s.reverse ==> t.reverse[h] == s.reverse[h]))
  {
    hide FindPid;
  }

  /** A pid that is freed is gone, with its index if it was a child; all other entries stay. */
  lemma FreeEffect(s: Pids, pid: int)
    requires pid in s.qnx && s.qnx[pid].qnxPid == pid
    ensures var (e, t) := (s.qnx[pid], Free(s, pid));
      && pid !in t.qnx
      && (forall q :: q != pid ==> (q in t.qnx <==> q in s.qnx) && (q in s.qnx ==> t.qnx[q] == s.qnx[q]))
      && (e.typ == CHILD && e.hostPid > 0 ==> e.hostPid !in t.reverse)
      && (forall h :: h != e.hostPid || e.typ != CHILD || h <= 0 ==>
            (h in t.reverse <==> h in s.reverse) && (h in s.reverse ==> t.reverse[h] == s.reverse[h]))
  {
  }

  /** To allocate a fresh pid for a child and to release it again changes nothing, exactly when the host pid is not 0. */
  lemma ReleaseUndoes(s: Pids, host: int)
    requires host >= START - RANGE && host !in s.reverse && AllocChild(s, host).Entry? && !Overwrites(s.qnx.Keys, host)
    ensures var a := AllocChild(s, host); Free(a.s, a.pid) == s <==> host != 0
  {
    hide FindPid, Overwrites;
    FoundPidFresh(s.qnx.Keys, host);
    var a := AllocChild(s, host);
    assert a.s.qnx - {a.pid} == s.qnx;
    if host > 0 {
      assert a.s.reverse - {host} == s.reverse;
    } else if host == 0 {
      assert 0 in Free(a.s, a.pid).reverse;
    }
  }

  // ----- the two maps are inverses

  predicate Inverse(s: Pids) {
    && KeysOk(s.qnx.Keys)
    && (forall q :: q in s.qnx ==> s.qnx[q].qnxPid == q)
    && (forall h :: h in s.reverse ==> s.reverse[h] in s.qnx && s.qnx[s.reverse[h]].hostPid == h)
    && (forall q :: q in s.qnx && s.qnx[q].hostPid >= 0 ==>
          s.qnx[q].hostPid in s.reverse && s.reverse[s.qnx[q].hostPid] == q)
  }

  predicate Pointed(s: Pids, p: int) { exists h :: h in s.reverse && s.reverse[h] == p }

  /** Entering a host pid at p keeps the maps inverse exactly when no other host pid points there. */
  lemma EnterKeepsInverse(s: Pids, p: int, host: int, typ: PidType, index: bool)
    requires Inverse(s) && LEAST_KEY <= p <= LAST && host !in s.reverse && (host >= 0 ==> index)
    ensures Inverse(Enter(s, p, host, typ, index)) <==> !Pointed(s, p)
  {
    var t := Enter(s, p, host, typ, index);
    if Pointed(s, p) {
      var h :| h in s.reverse && s.reverse[h] == p;
      assert h in t.reverse && t.reverse[h] == p && t.qnx[p].hostPid == host;
    } else {
      forall q | q in t.qnx && t.qnx[q].hostPid >= 0
        ensures t.qnx[q].hostPid in t.reverse && t.reverse[t.qnx[q].hostPid] == q
      {
        assert q != p ==> q in s.qnx && t.qnx[q] == s.qnx[q];
      }
    }
  }

  /** A child that is freed takes both its entries along; for other entries that have a host pid the index is left dangling. */
  lemma FreeKeepsInverse(s: Pids, pid: int)
    requires Inverse(s) && pid in s.qnx
    ensures Inverse(Free(s, pid)) <==> (s.qnx[pid].hostPid > 0 && s.qnx[pid].typ == CHILD) || !Pointed(s, pid)
  {
  }

  /** Releasing the process's own entry: its host pid still leads to the pid that is gone. */
  lemma FreeDangles()
    ensures var s := Pids(map[100 := QnxPid(SELF, 100, 100)], map[100 := 100]);
      Inverse(s) && Free(s, 100).qnx == map[] && 100 in Free(s, 100).reverse && !Inverse(Free(s, 100))
  {
  }

  lemma FreshNotPointed(s: Pids, p: int)
    requires Inverse(s) && p !in s.qnx
    ensures !Pointed(s, p)
  {
  }

  // ----- runs

  datatype Op = Related(host: int, typ: PidType) | Child(host: int) | Release(pid: int)

  /** What the callers respect: one entry per host pid, only children are released, no probe wraps onto a taken pid 10. */
  predicate Allowed(s: Pids, op: Op) {
    match op
    case Related(host, _) => host >= -1 && (host != -1 && host !in s.reverse ==> !Overwrites(s.qnx.Keys, host))
    case Child(host) => host >= 0 && host !in s.reverse && !Overwrites(s.qnx.Keys, host)
    case Release(pid) => pid in s.qnx && s.qnx[pid].typ == CHILD && s.qnx[pid].hostPid > 0
  }

  /** The pid an operation newly hands out. */
  function Fresh(s: Pids, op: Op): Option<int>
    requires Allowed(s, op)
  {
    match op
    case Related(host, _) => if host == -1 || host in s.reverse then None else FindPid(s.qnx.Keys, host)
    case Child(host) => FindPid(s.qnx.Keys, host)
    case Release(_) => None
  }

  function Do(s: Pids, op: Op): Pids
    requires Allowed(s, op)
  {
    match op
    case Related(host, typ) => (match AllocRelated(s, host, typ) case Entry(t, _) => t case _ => s)
    case Child(host) => (match AllocChild(s, host) case Entry(t, _) => t case _ => s)
    case Release(pid) => Free(s, pid)
  }

  lemma DoKeepsInverse(s: Pids, op: Op)
    requires Inverse(s) && Allowed(s, op)
    ensures Inverse(Do(s, op))
    ensures Fresh(s, op).Some? ==> START <= Fresh(s, op).value <= LAST && Fresh(s, op).value !in s.qnx && Fresh(s, op).value in Do(s, op).qnx
  {
    hide Inverse, FindPid, Overwrites, CompressPid, RandomizePid, Pointed;
    match op
    case Related(host, typ) =>
      if host != -1 && host !in s.reverse && FindPid(s.qnx.Keys, host).Some? {
        FoundPidFresh(s.qnx.Keys, host);
        FreshNotPointed(s, FindPid(s.qnx.Keys, host).value);
        EnterKeepsInverse(s, FindPid(s.qnx.Keys, host).value, host, typ, true);
      }
    case Child(host) =>
      if FindPid(s.qnx.Keys, host).Some? {
        FoundPidFresh(s.qnx.Keys, host);
        FreshNotPointed(s, FindPid(s.qnx.Keys, host).value);
        EnterKeepsInverse(s, FindPid(s.qnx.Keys, host).value, host, CHILD, true);
      }
    case Release(pid) => FreeKeepsInverse(s, pid);
  }

  predicate AllowedRun(s: Pids, ops: seq<Op>)
    decreases |ops|
  {
    ops == [] || (Allowed(s, ops[0]) && AllowedRun(Do(s, ops[0]), ops[1..]))
  }

  function DoAll(s: Pids, ops: seq<Op>): Pids
    requires AllowedRun(s, ops)
    decreases |ops|
  {
    if ops == [] then s else DoAll(Do(s, ops[0]), ops[1..])
  }

  /** Every pid a run hands out was free in the state it was handed out in, and lies in the range. */
  predicate HandsOutFresh(s: Pids, ops: seq<Op>)
    requires AllowedRun(s, ops)
    decreases |ops|
  {
    ops == [] ||
    (var f := Fresh(s, ops[0]);
     (f.Some? ==> START <= f.value <= LAST && f.value !in s.qnx) && HandsOutFresh(Do(s, ops[0]), ops[1..]))
  }

  /** Over every run the callers' rules allow, the maps stay inverse and no live pid is handed out again. */
  lemma {:induction false} RunKeepsInverse(s: Pids, ops: seq<Op>)
    requires Inverse(s) && AllowedRun(s, ops)
    ensures Inverse(DoAll(s, ops)) && HandsOutFresh(s, ops)
    decreases |ops|
  {
    hide Inverse, Allowed, Do, Fresh;
    if ops != [] {
      DoKeepsInverse(s, ops[0]);
      RunKeepsInverse(Do(s, ops[0]), ops[1..]);
    }
  }

  /** Start-up: the permanent pids 1 and 2 without host pids. */
  lemma InitialInverse()
    ensures var s := AllocPermanent(AllocPermanent(Pids(map[], map[]), 1, -1), 2, -1);
      Inverse(s) && HasLowKey(s.qnx.Keys)
  {
    var s := AllocPermanent(AllocPermanent(Pids(map[], map[]), 1, -1), 2, -1);
    HasLowKeyExact(s.qnx.Keys);
    assert 1 in s.qnx.Keys;
  }

  // ----- fork

  /** A process's view: its map, its own key and its parent's key. */
  datatype Family = Family(pids: Pids, me: int, parent: int)

  /** update_pids_after_fork; None when the map is full. */
  function UpdateAfterFork(f: Family, newPid: int): Option<Family>
    requires newPid >= 0
  {
    match AllocRelated(f.pids, newPid, SELF)
    case Entry(t, p) => Some(Family(t, p, f.me))
    case _ => None
  }

  /**
   After fork, parent and child start from the same map. The son's pid that the parent reports is
   the child's own pid, and the parent's pid that the child reports is the parent's own, collisions
   and probing included; the two pids differ unless the search wrapped onto the parent's own entry.
   */
  lemma ForkAgrees(f: Family, host: int)
    requires Inverse(f.pids) && f.me in f.pids.qnx && host >= 0 && host !in f.pids.reverse
    ensures AllocChild(f.pids, host).Full? <==> UpdateAfterFork(f, host).None?
    ensures UpdateAfterFork(f, host).Some? ==>
      var child, inParent := UpdateAfterFork(f, host).value, AllocChild(f.pids, host);
      && child.me == inParent.pid
      && child.pids.qnx[child.me].typ == SELF && inParent.s.qnx[inParent.pid].typ == CHILD
      && child.pids.qnx[child.me].qnxPid == inParent.s.qnx[inParent.pid].qnxPid == child.me
      && child.parent in child.pids.qnx && child.pids.qnx[child.parent].qnxPid == f.pids.qnx[f.me].qnxPid
      && (child.me == child.parent ==> Overwrites(f.pids.qnx.Keys, host))
  {
  }

  // ----- the object

  class PidMap {
    var qnxMap: map<int, QnxPid>
    var reverseMap: map<int, int>

    function State(): Pids
      reads this
    {
      Pids(qnxMap, reverseMap)
    }

    constructor ()
      ensures State() == Pids(map[], map[])
    {
      qnxMap, reverseMap := map[], map[];
    }

    /** The key that alloc_empty ends on; the iterator walks the map's keys in order beside the counter. */
    method Search(host: int) returns (r: Option<int>)
      requires host >= START - RANGE && KeysOk(qnxMap.Keys)
      ensures r == FindPid(qnxMap.Keys, host)
    {
      hide CompressPid, RandomizePid, KeysOk, KeyFrom, HasLowKey, FirstFree;
      ghost var keys := qnxMap.Keys;
      CompressInRange(host);
      var tryPid: int := CompressPid(host);
      if tryPid !in qnxMap {
        return Some(tryPid);
      }
      tryPid := RandomizePid(host);
      var startPid := tryPid;
      var it := if tryPid in qnxMap then Some(tryPid) else None;
      var wrapped := false;
      while it.Some? && it.value == tryPid
        invariant START <= tryPid <= LAST
        invariant !wrapped ==> startPid <= tryPid && (it == Some(tryPid) <==> tryPid in keys) && forall j :: startPid <= j < tryPid ==> j in keys
        invariant wrapped ==> START <= tryPid < startPid && forall j :: startPid <= j <= LAST ==> j in keys
        invariant wrapped && HasLowKey(keys) ==> tryPid == START && it.Some? && it.value < START
        invariant wrapped && !HasLowKey(keys) ==> it == KeyFrom(keys, tryPid) && forall j :: START <= j < tryPid ==> j in keys
        decreases if wrapped then startPid - tryPid else LAST + startPid - tryPid + 1
      {
        KeyFromLeast(keys, tryPid);
        KeyFromLeast(keys, tryPid + 1);
        if tryPid == LAST {
          tryPid := START;
          it := KeyFrom(qnxMap.Keys, LEAST_KEY);
          wrapped := true;
          FirstFreeIs(keys, startPid, LAST, LAST + 1);
          BeginAt(keys);
        } else {
          tryPid := tryPid + 1;
          it := KeyFrom(qnxMap.Keys, it.value + 1);
        }
        if tryPid == startPid {
          if wrapped && startPid > START {
            FirstFreeIs(keys, START, startPid - 1, startPid);
          }
          return None;
        }
      }
      if !wrapped {
        FirstFreeIs(keys, startPid, LAST, tryPid);
      } else {
        FirstFreeIs(keys, startPid, LAST, LAST + 1);
        if !HasLowKey(keys) {
          StopsAtFree(keys, tryPid);
          FirstFreeIs(keys, START, startPid - 1, tryPid);
        }
      }
      return Some(tryPid);
    }

    method AllocPermanentPid(pid: int, host: int)
      requires pid !in qnxMap && (host >= 0 ==> host !in reverseMap)
      modifies this
      ensures State() == AllocPermanent(old(State()), pid, host)
      ensures qnxMap == old(qnxMap)[pid := QnxPid(PERMANENT, pid, host)]
      ensures reverseMap == if host >= 0 then old(reverseMap)[host := pid] else old(reverseMap)
    {
      qnxMap := qnxMap[pid := QnxPid(PERMANENT, pid, host)];
      if host >= 0 {
        reverseMap := reverseMap[host := pid];
      }
    }

    method AllocRelatedPid(host: int, typ: PidType) returns (r: Alloc)
      requires host >= START - RANGE && KeysOk(qnxMap.Keys)
      modifies this
      ensures r == AllocRelated(old(State()), host, typ)
      ensures State() == if r.Entry? then r.s else old(State())
    {
      hide FindPid, KeysOk;
      if host == -1 {
        return NoHost;
      }
      if host in reverseMap {
        return Entry(State(), reverseMap[host]);
      }
      var p := Search(host);
      if p.None? {
        return Full;
      }
      qnxMap := qnxMap[p.value := QnxPid(typ, p.value, host)];
      reverseMap := reverseMap[host := p.value];
      return Entry(State(), p.value);
    }

    method AllocChildPid(host: int) returns (r: Alloc)
      requires host >= START - RANGE && KeysOk(qnxMap.Keys) && (host >= 0 ==> host !in reverseMap)
      modifies this
      ensures r == AllocChild(old(State()), host)
      ensures State() == if r.Entry? then r.s else old(State())
    {
      hide FindPid, KeysOk;
      var p := Search(host);
      if p.None? {
        return Full;
      }
      qnxMap := qnxMap[p.value := QnxPid(CHILD, p.value, host)];
      if host >= 0 {
        reverseMap := reverseMap[host := p.value];
      }
      return Entry(State(), p.value);
    }

    method FreePid(pid: int)
      requires pid in qnxMap
      modifies this
      ensures State() == Free(old(State()), pid)
      ensures var e := old(qnxMap)[pid];
        && e.qnxPid !in qnxMap
        && (forall q :: q in old(qnxMap) && q != e.qnxPid ==> q in qnxMap && qnxMap[q] == old(qnxMap)[q])
        && (e.typ == CHILD && e.hostPid > 0 ==> e.hostPid !in reverseMap)
    {
      var e := qnxMap[pid];
      if e.hostPid > 0 && e.typ == CHILD {
        reverseMap := reverseMap - {e.hostPid};
      }
      qnxMap := qnxMap - {e.qnxPid};
    }
  }

  lemma StopsAtFree(keys: set<int>, p: int)
    requires KeysOk(keys) && KeyFrom(keys, p) != Some(p)
    ensures p <= LAST ==> p !in keys
  {
  }

  /** Where the restarted iterator stands: below the start pid, or in step with it. */
  lemma BeginAt(keys: set<int>)
    requires KeysOk(keys)
    ensures HasLowKey(keys) ==> KeyFrom(keys, LEAST_KEY).Some? && KeyFrom(keys, LEAST_KEY).value < START
    ensures !HasLowKey(keys) ==> KeyFrom(keys, LEAST_KEY) == KeyFrom(keys, START)
  {
    KeyFromLeast(keys, LEAST_KEY);
    KeyFromLeast(keys, START);
  }
}
