/** The mapping between QNX and host paths by prefixes (src/path_mapper.cpp, src/fsutil.cpp). */
module PathMappers {
  import opened Words
  import opened Paths

  // ----- exchanging a prefix

  function SkipSeparators(s: string, i: nat): (j: nat)
    requires i <= |s|
    ensures i <= j <= |s| && (j < |s| ==> s[j] != '/') && forall k :: i <= k < j ==> s[k] == '/'
    decreases |s| - i
  {
    if i < |s| && s[i] == '/' then SkipSeparators(s, i + 1) else i
  }

  /** What is left of the path behind the prefix, without leading separators, put behind the new prefix. */
  function ChangePrefix(prefix: string, newPrefix: string, path: string): string
    requires |prefix| <= |path| && newPrefix != ""
  {
    var common := path[SkipSeparators(path, |prefix|)..];
    if common == "" then newPrefix
    else if newPrefix[|newPrefix| - 1] != '/' then newPrefix + "/" + common
    else newPrefix + common
  }

  method ChangePrefixOf(prefix: string, newPrefix: string, path: string) returns (acc: string)
    requires IsAbs(prefix) && IsAbs(newPrefix) && |prefix| <= |path|
    ensures acc == ChangePrefix(prefix, newPrefix, path)
  {
    var common := |prefix|;
    while common < |path| && path[common] == '/'
      invariant |prefix| <= common <= |path|
      invariant SkipSeparators(path, common) == SkipSeparators(path, |prefix|)
    {
      common := common + 1;
    }
    acc := newPrefix;
    if common < |path| {
      if acc[|acc| - 1] != '/' {
        acc := acc + "/";
      }
      acc := acc + path[common..];
    }
  }

  /** An absolute path in normal form. */
  predicate Canonical(s: string) { IsAbs(s) && IsNormal(s) }

  /** The prefix ends where a component of the path ends. */
  predicate AtBoundary(path: string, prefix: string)
    requires prefix <= path
  {
    prefix == "/" || |path| == |prefix| || path[|prefix|] == '/'
  }

  lemma CanonicalStart(s: string)
    requires Canonical(s)
    ensures s != "" && s[0] == '/'
  {
  }

  lemma CanonicalEnd(s: string)
    requires Canonical(s) && s != "/"
    ensures |s| > 1 && s[|s| - 1] != '/'
  {
    NormalProperties(s);
  }

  /** Clean parts do not produce two separators in a row. */
  lemma CanonicalNoDouble(s: string, k: nat)
    requires Canonical(s) && k + 1 < |s| && s[k] == '/'
    ensures s[k + 1] != '/'
  {
    NormalForm(s);
    SplitNoDouble(s, 1, k);
  }

  lemma {:induction false} SplitNoDouble(s: string, i: nat, k: nat)
    requires IsAbs(s) && 1 <= i <= |s| && i <= k + 1 < |s| && s[i - 1] == '/' && s[k] == '/'
    requires AllClean(Split(s, i))
    ensures s[k + 1] != '/'
    decreases |s| - i
  {
    hide Split, NextSep;
    if i < |s| {
      var j := NextSep(s, i);
      NextSepPart(s, i, j);
      SplitOnce(s, i, j);
      assert Clean(Split(s, i)[0]);
      if k >= i {
        SepNotBefore(s, i, j, k);
        assert Split(s, i)[1..] == Split(s, j + 1);
        SplitNoDouble(s, j + 1, k);
      } else {
        FirstNotSep(s, i, j);
      }
    }
  }

  lemma SepNotBefore(s: string, i: nat, j: nat, k: nat)
    requires i <= k < |s| && s[k] == '/' && NextSep(s, i) == j
    ensures j <= k && s[j] == '/'
  {
  }

  lemma FirstNotSep(s: string, i: nat, j: nat)
    requires i < |s| && NextSep(s, i) == j && Clean(s[i..j])
    ensures s[i] != '/'
  {
  }

  /** The rest of a canonical path behind a prefix at a boundary starts right behind one separator. */
  lemma CommonPart(path: string, prefix: string)
    requires Canonical(path) && Canonical(prefix) && prefix <= path && AtBoundary(path, prefix)
    ensures var c := path[SkipSeparators(path, |prefix|)..];
      if c == "" then path == prefix
      else c[0] != '/' && path == (if prefix == "/" then "/" else prefix + "/") + c
  {
    hide Canonical;
    var n := |prefix|;
    CanonicalStart(prefix);
    SkipNone(path, |path|);
    if prefix == "/" {
      if |path| > 1 {
        CanonicalNoDouble(path, 0);
      }
      assert SkipSeparators(path, 1) == 1;
      assert path == "/" + path[1..];
    } else if |path| > n {
      if n + 1 < |path| {
        CanonicalNoDouble(path, n);
      } else {
        CanonicalEnd(path);
      }
      assert SkipSeparators(path, n) == n + 1;
      assert path == prefix + "/" + path[n + 1..];
    }
  }

  lemma SkipNone(s: string, i: nat)
    requires i <= |s| && (i < |s| ==> s[i] != '/')
    ensures SkipSeparators(s, i) == i
  {
  }

  /**
   Exchanging a prefix and exchanging it back gives the original path exactly when the prefix was
   matched at the end of a component.
   */
  lemma ChangePrefixRoundTrip(path: string, p: string, q: string)
    requires Canonical(path) && Canonical(p) && Canonical(q) && p <= path
    ensures var there := ChangePrefix(p, q, path);
      q <= there && (ChangePrefix(q, p, there) == path <==> AtBoundary(path, p))
  {
    hide Canonical;
    CanonicalStart(p);
    CanonicalStart(q);
    var n := SkipSeparators(path, |p|);
    var c := path[n..];
    var there := ChangePrefix(p, q, path);
    if c == "" {
      assert there == q;
      SkipNone(there, |q|);
      assert ChangePrefix(q, p, there) == p;
      if n > |p| {
        CanonicalEnd(path);
      }
    } else {
      var glue := if q == "/" then "" else "/";
      if q != "/" {
        CanonicalEnd(q);
      }
      assert there == q + glue + c;
      GluedSkip(q, glue, c);
      assert there[SkipSeparators(there, |q|)..] == c;
      if p != "/" {
        CanonicalEnd(p);
      }
      var back := ChangePrefix(q, p, there);
      assert back == (if p == "/" then "/" else p + "/") + c;
      if AtBoundary(path, p) {
        CommonPart(path, p);
      } else {
        SkipNone(path, |p|);
        assert |back| == |path| + 1;
      }
    }
  }

  /** A prefix matched inside a component: /ab through /a to /b comes back as /a/b. */
  lemma RoundTripFails()
    ensures !AtBoundary("/ab", "/a")
    ensures ChangePrefix("/a", "/b", "/ab") == "/b/b" && ChangePrefix("/b", "/a", "/b/b") == "/a/b"
  {
    SkipNone("/ab", 2);
    assert "/ab"[2..] == "b" && "/b" + "/" + "b" == "/b/b";
    SkipNone("/b/b", 3);
    assert "/b/b"[3..] == "b" && "/a" + "/" + "b" == "/a/b";
  }

  lemma GluedSkip(q: string, glue: string, c: string)
    requires c != "" && c[0] != '/' && (glue == "" || glue == "/")
    ensures SkipSeparators(q + glue + c, |q|) == |q| + |glue|
  {
  }

  /** The result of the exchange at a boundary is canonical again. */
  lemma ChangePrefixCanonical(path: string, p: string, q: string)
    requires Canonical(path) && Canonical(p) && Canonical(q) && p <= path && AtBoundary(path, p)
    ensures Canonical(ChangePrefix(p, q, path))
  {
    CommonPart(path, p);
    var c := path[SkipSeparators(path, |p|)..];
    if c != "" {
      BehindCanonical(p, c, path);
      if q != "/" {
        CanonicalEnd(q);
      }
      GlueCanonical(q, c);
    }
  }

  /** The exchange at a boundary replaces the components of the prefix, and keeps those behind it. */
  lemma ChangePrefixParts(path: string, p: string, q: string)
    requires Canonical(path) && Canonical(p) && Canonical(q) && p <= path && AtBoundary(path, p)
    ensures Parts(p) <= Parts(path)
    ensures Parts(ChangePrefix(p, q, path)) == Parts(q) + Parts(path)[|Parts(p)|..]
  {
    hide Canonical, Parts, Split;
    CommonPart(path, p);
    CanonicalStart(p);
    CanonicalStart(q);
    var c := path[SkipSeparators(path, |p|)..];
    if c == "" {
      assert Parts(path)[|Parts(p)|..] == [];
    } else {
      GluedParts(p, c);
      GluedParts(q, c);
      if q != "/" {
        CanonicalEnd(q);
      }
      assert path == if p == "/" then "/" + c else p + "/" + c;
      assert ChangePrefix(p, q, path) == if q == "/" then "/" + c else q + "/" + c;
    }
  }

  /** A canonical path and what follows it, split into parts. */
  lemma GluedParts(p: string, c: string)
    requires Canonical(p)
    ensures var s := if p == "/" then "/" + c else p + "/" + c;
      IsAbs(s) && Parts(s) == Parts(p) + Split(c, 0)
  {
    if p == "/" {
      SplitShift("/", c, 0);
      SplitAtEnd("/");
    } else {
      CanonicalEnd(p);
      SplitAt(p, c, 1);
    }
  }

  lemma BehindCanonical(p: string, c: string, path: string)
    requires Canonical(p) && Canonical(path) && path == if p == "/" then "/" + c else p + "/" + c
    ensures AllClean(Split(c, 0)) && (c != "" ==> c[|c| - 1] != '/')
  {
    hide Split, Join, Normal, Parts, AllClean;
    NormalForm(path);
    GluedParts(p, c);
    AllCleanTail(Parts(p), Split(c, 0));
    if c != "" {
      CanonicalEnd(path);
    }
  }

  lemma AllCleanTail(a: seq<string>, b: seq<string>)
    requires AllClean(a + b)
    ensures AllClean(b)
  {
    hide Clean;
    forall k | 0 <= k < |b| ensures Clean(b[k]) {
      assert b[k] == (a + b)[|a| + k];
    }
  }

  /** A path whose parts are clean and that does not end in a separator is the join of its parts. */
  lemma {:induction false} JoinOfSplit(s: string, i: nat)
    requires i < |s| && s[|s| - 1] != '/' && AllClean(Split(s, i))
    ensures Split(s, i) != [] && JoinFrom(Split(s, i)) == s[i..]
    decreases |s| - i
  {
    hide Split, NextSep;
    var j := NextSep(s, i);
    NextSepPart(s, i, j);
    SplitOnce(s, i, j);
    if j < |s| {
      assert Split(s, i)[1..] == Split(s, j + 1);
      SepAt(s, i, j);
      JoinOfSplit(s, j + 1);
      assert s[i..] == s[i..j] + "/" + s[j + 1..];
    } else {
      assert s[i..j] == s[i..];
    }
  }

  lemma SepAt(s: string, i: nat, j: nat)
    requires i <= |s| && NextSep(s, i) == j && j < |s| && s[|s| - 1] != '/'
    ensures s[j] == '/' && j + 1 < |s|
  {
  }

  /** Join, from the front. */
  function JoinFrom(stack: seq<string>): string
    decreases |stack|
  {
    if stack == [] then "" else if |stack| == 1 then stack[0] else stack[0] + "/" + JoinFrom(stack[1..])
  }

  lemma {:induction false} JoinSplits(abs: bool, stack: seq<string>)
    requires stack != []
    ensures Join(abs, stack) == (if abs then "/" else "") + JoinFrom(stack)
    decreases |stack|
  {
    hide JoinFrom;
    if |stack| > 1 {
      JoinSplits(abs, stack[..|stack| - 1]);
      JoinFromEnd(stack);
    } else {
      JoinFromOne(stack);
    }
  }

  lemma JoinFromOne(stack: seq<string>)
    requires |stack| == 1
    ensures JoinFrom(stack) == stack[0]
  {
  }

  lemma {:induction false} JoinFromEnd(stack: seq<string>)
    requires |stack| > 1
    ensures JoinFrom(stack) == JoinFrom(stack[..|stack| - 1]) + "/" + stack[|stack| - 1]
    decreases |stack|
  {
    if |stack| > 2 {
      JoinFromEnd(stack[1..]);
      assert stack[1..][..|stack| - 2] == stack[..|stack| - 1][1..];
    } else {
      assert stack[..1][0] == stack[0] && stack[1..][0] == stack[1];
    }
  }

  lemma GlueCanonical(q: string, c: string)
    requires Canonical(q) && c != "" && AllClean(Split(c, 0)) && c[|c| - 1] != '/'
    ensures Canonical(if q == "/" then "/" + c else q + "/" + c)
  {
    hide Split, Join, JoinFrom, Normal, Clean;
    var s := if q == "/" then "/" + c else q + "/" + c;
    NormalForm(q);
    GluedParts(q, c);
    var parts := Parts(s);
    assert AllClean(parts);
    JoinOfSplit(s, 1);
    JoinSplits(true, parts);
    assert "/" + s[1..] == s;
    NormalForm(s);
  }

  // ----- the mapper

  /** Whose format the executables below a prefix have. */
  datatype Exec = QNX | HOST

  datatype Prefix = Prefix(host: string, qnx: string, exec: Exec)

  const DEFAULT_ROOT := Prefix("/", "/", QNX)

  /** The parsed argument of one -m option. */
  datatype MapOption = MapOption(qnx: CString, host: CString, exec: string)

  datatype Mapper = Mapper(root: Prefix, prefixes: seq<Prefix>)

  /** None is a ConfigurationError. */
  function Convert(o: MapOption): Option<Prefix> {
    var q, h := Normal(o.qnx), Normal(o.host);
    if o.exec == "" then Some(Prefix(h, q, if q == "/" then QNX else HOST))
    else if o.exec == "qnx" then Some(Prefix(h, q, QNX))
    else if o.exec == "host" then Some(Prefix(h, q, HOST))
    else None
  }

  /** The mapping of an accepted option: its two paths normalised, and host programs unless the root or `exec=` says otherwise. */
  predicate Accepted(p: Prefix, o: MapOption) {
    && p.qnx == Normal(o.qnx) && p.host == Normal(o.host)
    && (p.exec == HOST <==> o.exec == "host" || (o.exec == "" && Normal(o.qnx) != "/"))
  }

  predicate HasQnx(ps: seq<Prefix>, qnx: string) { exists k :: 0 <= k < |ps| && ps[k].qnx == qnx }

  function AddMap(m: Mapper, o: MapOption): Option<Mapper> {
    match Convert(o)
    case None => None
    case Some(p) =>
      if p.qnx == "/" then Some(m.(root := p))
      else if HasQnx(m.prefixes, p.qnx) then None
      else Some(m.(prefixes := m.prefixes + [p]))
  }

  /** The longest QNX prefix that matches, starting from `best`; the earlier one of equals. */
  function PickHost(best: Prefix, ps: seq<Prefix>, path: string): Prefix
    decreases |ps|
  {
    if ps == [] then best
    else PickHost(if ps[0].qnx <= path && |ps[0].qnx| > |best.qnx| then ps[0] else best, ps[1..], path)
  }

  /** Of the matching host prefixes the one with the shortest QNX path. */
  function PickQnx(best: Option<Prefix>, ps: seq<Prefix>, path: string): Option<Prefix>
    decreases |ps|
  {
    if ps == [] then best
    else
      var better := ps[0].host <= path && (best.None? || |ps[0].qnx| < |best.value.qnx|);
      PickQnx(if better then Some(ps[0]) else best, ps[1..], path)
  }

  /** The root mapping takes precedence when it matches. */
  function QnxPrefixFor(m: Mapper, path: string): Option<Prefix> {
    if m.root.host <= path then Some(m.root) else PickQnx(None, m.prefixes, path)
  }

  function HostPrefixFor(m: Mapper, path: string): Prefix { PickHost(m.root, m.prefixes, path) }

  /** What change_prefix asserts of the mapping it is given. */
  predicate Usable(p: Option<Prefix>) { p.Some? ==> IsAbs(p.value.host) && IsAbs(p.value.qnx) }

  predicate CanonicalPrefix(p: Prefix) { Canonical(p.host) && Canonical(p.qnx) }

  predicate CanonicalMapper(m: Mapper) {
    CanonicalPrefix(m.root) && m.root.qnx == "/" && forall k :: 0 <= k < |m.prefixes| ==> CanonicalPrefix(m.prefixes[k])
  }

  /** In a mapper that only has absolute normalised paths, every absolute path can be mapped both ways. */
  lemma CanonicalUsable(m: Mapper, path: string)
    requires CanonicalMapper(m) && IsAbs(path)
    ensures Usable(QnxPrefixFor(m, path)) && Usable(Some(HostPrefixFor(m, path)))
    ensures HostPrefixFor(m, path).qnx <= path
  {
    hide Canonical;
    PickQnxMatches(None, m.prefixes, path);
    PickHostMatches(m.root, m.prefixes, path);
    assert forall p :: CanonicalPrefix(p) ==> Usable(Some(p)) by {
      forall p | CanonicalPrefix(p) ensures Usable(Some(p)) {
        CanonicalStart(p.host);
        CanonicalStart(p.qnx);
      }
    }
  }

  lemma AddMapCanonical(m: Mapper, o: MapOption)
    requires CanonicalMapper(m) && IsAbs(o.qnx) && IsAbs(o.host)
    ensures AddMap(m, o).Some? ==> CanonicalMapper(AddMap(m, o).value)
  {
    hide Normal;
    NormalProperties(o.qnx);
    NormalProperties(o.host);
  }

  lemma {:induction false} PickHostMatches(best: Prefix, ps: seq<Prefix>, path: string)
    ensures var r := PickHost(best, ps, path);
      && (r == best || (r in ps && r.qnx <= path && |r.qnx| > |best.qnx|))
      && |r.qnx| >= |best.qnx|
      && forall c :: c in ps && c.qnx <= path ==> |c.qnx| <= |r.qnx|
    decreases |ps|
  {
    if ps != [] {
      PickHostMatches(if ps[0].qnx <= path && |ps[0].qnx| > |best.qnx| then ps[0] else best, ps[1..], path);
      assert ps == [ps[0]] + ps[1..];
    }
  }

  lemma {:induction false} PickQnxMatches(best: Option<Prefix>, ps: seq<Prefix>, path: string)
    requires best.Some? ==> best.value.host <= path
    ensures var r := PickQnx(best, ps, path);
      && (r.Some? ==> r.value.host <= path && (r == best || r.value in ps))
      && (r.None? <==> best.None? && forall c :: c in ps ==> !(c.host <= path))
      && (r.Some? ==> forall c :: c in ps && c.host <= path ==> |r.value.qnx| <= |c.qnx|)
      && (r.Some? && best.Some? ==> |r.value.qnx| <= |best.value.qnx|)
    decreases |ps|
  {
    if ps != [] {
      var better := ps[0].host <= path && (best.None? || |ps[0].qnx| < |best.value.qnx|);
      PickQnxMatches(if better then Some(ps[0]) else best, ps[1..], path);
      assert ps == [ps[0]] + ps[1..];
    }
  }

  /** The root mapping is picked whenever its host path matches; or else a matching prefix with the shortest QNX path. */
  lemma QnxPrefixExact(m: Mapper, path: string)
    ensures m.root.host <= path ==> QnxPrefixFor(m, path) == Some(m.root)
    ensures !(m.root.host <= path) ==>
      match QnxPrefixFor(m, path)
      case None => forall c :: c in m.prefixes ==> !(c.host <= path)
      case Some(p) => p in m.prefixes && p.host <= path && forall c :: c in m.prefixes && c.host <= path ==> |p.qnx| <= |c.qnx|
  {
    PickQnxMatches(None, m.prefixes, path);
  }

  /**
   Mapping a canonical host path to QNX and back gives the original path exactly when it was
   matched at the end of a component, provided the lookup of the QNX path picks the same mapping;
   both paths are canonical then.
   */
  lemma MapRoundTrip(m: Mapper, path: string)
    requires CanonicalMapper(m) && Canonical(path) && QnxPrefixFor(m, path).Some?
    ensures var p := QnxPrefixFor(m, path).value;
      && p.host <= path && CanonicalPrefix(p)
      && var there := ChangePrefix(p.host, p.qnx, path);
         HostPrefixFor(m, there) == p ==>
           && p.qnx <= there
           && (ChangePrefix(p.qnx, p.host, there) == path <==> AtBoundary(path, p.host))
           && (AtBoundary(path, p.host) ==> Canonical(there))
  {
    hide Canonical, PickQnx, AtBoundary;
    PickQnxMatches(None, m.prefixes, path);
    var p := QnxPrefixFor(m, path).value;
    assert CanonicalPrefix(p);
    CanonicalStart(p.qnx);
    CanonicalStart(p.host);
    ChangePrefixRoundTrip(path, p.host, p.qnx);
    if AtBoundary(path, p.host) {
      ChangePrefixCanonical(path, p.host, p.qnx);
    }
  }

  // ----- the order of the options

  function AddAll(m: Mapper, os: seq<MapOption>): Option<Mapper>
    decreases |os|
  {
    if os == [] then Some(m)
    else
      match AddMap(m, os[0])
      case None => None
      case Some(m') => AddAll(m', os[1..])
  }

  predicate AllConvert(os: seq<MapOption>) { forall k :: 0 <= k < |os| ==> Convert(os[k]).Some? }

  /** The converted options for the root, or for the other prefixes, in order. */
  function Selected(os: seq<MapOption>, root: bool): seq<Prefix>
    decreases |os|
  {
    if os == [] then []
    else
      var p := Convert(os[0]);
      (if p.Some? && (p.value.qnx == "/") == root then [p.value] else []) + Selected(os[1..], root)
  }

  predicate DistinctQnx(ps: seq<Prefix>) {
    forall i, j :: 0 <= i < j < |ps| ==> ps[i].qnx != ps[j].qnx
  }

  /** Options are accepted exactly when they are well formed and name distinct QNX prefixes; then all of them take effect. */
  lemma {:induction false} AddAllExact(m: Mapper, os: seq<MapOption>)
    requires DistinctQnx(m.prefixes)
    ensures AddAll(m, os).Some? <==> AllConvert(os) && DistinctQnx(m.prefixes + Selected(os, false))
    ensures AddAll(m, os).Some? ==>
      && AddAll(m, os).value.prefixes == m.prefixes + Selected(os, false)
      && var roots := Selected(os, true);
         AddAll(m, os).value.root == if roots == [] then m.root else roots[|roots| - 1]
    decreases |os|
  {
    hide Convert, AllConvert, DistinctQnx;
    var rest := Selected(os, false);
    if os == [] {
      NoneToConvert();
      assert m.prefixes + [] == m.prefixes;
    } else if Convert(os[0]).Some? {
      var p := Convert(os[0]).value;
      AllConvertStep(os);
      var roots := Selected(os[1..], true);
      assert Selected(os, true) == (if p.qnx == "/" then [p] else []) + roots;
      assert rest == (if p.qnx == "/" then [] else [p]) + Selected(os[1..], false);
      if p.qnx == "/" {
        assert Selected(os[1..], false) == rest;
        AddAllExact(m.(root := p), os[1..]);
        assert AddMap(m, os[0]) == Some(m.(root := p));
        assert AddAll(m, os) == AddAll(m.(root := p), os[1..]);
      } else {
        assert [] + roots == roots;
        var more := m.prefixes + [p];
        assert m.prefixes + rest == more + Selected(os[1..], false);
        if HasQnx(m.prefixes, p.qnx) {
          var k :| 0 <= k < |m.prefixes| && m.prefixes[k].qnx == p.qnx;
          NotDistinct(m.prefixes + rest, k, |m.prefixes|);
        } else {
          DistinctGrows(m.prefixes, p);
          AddAllExact(m.(prefixes := more), os[1..]);
          assert AddMap(m, os[0]) == Some(m.(prefixes := more));
          assert AddAll(m, os) == AddAll(m.(prefixes := more), os[1..]);
        }
      }
    } else {
      NotConverted(os);
    }
  }

  lemma NotDistinct(ps: seq<Prefix>, i: nat, j: nat)
    requires i < j < |ps| && ps[i].qnx == ps[j].qnx
    ensures !DistinctQnx(ps)
  {
  }

  lemma NotConverted(os: seq<MapOption>)
    requires os != [] && Convert(os[0]).None?
    ensures !AllConvert(os)
  {
  }

  lemma NoneToConvert()
    ensures AllConvert([])
  {
  }

  lemma DistinctGrows(ps: seq<Prefix>, p: Prefix)
    requires DistinctQnx(ps) && !HasQnx(ps, p.qnx)
    ensures DistinctQnx(ps + [p])
  {
  }

  lemma AllConvertStep(os: seq<MapOption>)
    requires os != [] && Convert(os[0]).Some?
    ensures AllConvert(os) <==> AllConvert(os[1..])
  {
  }

  lemma {:induction false} SelectedAppend(a: seq<MapOption>, b: seq<MapOption>, root: bool)
    ensures Selected(a + b, root) == Selected(a, root) + Selected(b, root)
    decreases |a|
  {
    hide Convert;
    if a == [] {
      assert a + b == b;
    } else {
      assert (a + b)[1..] == a[1..] + b;
      SelectedAppend(a[1..], b, root);
    }
  }

  /** Reordering the options reorders what is selected from them. */
  lemma {:induction false} SelectedPermutes(os: seq<MapOption>, os': seq<MapOption>, root: bool)
    requires multiset(os) == multiset(os')
    ensures multiset(Selected(os, root)) == multiset(Selected(os', root))
    decreases |os|
  {
    hide Convert, Selected;
    if os == [] {
      assert |os'| == |multiset(os')| == 0;
    } else {
      var x := os[0];
      assert x in multiset(os');
      var i :| 0 <= i < |os'| && os'[i] == x;
      var a, b := os'[..i], os'[i + 1..];
      TakeOut(os, os', i);
      SelectedPermutes(os[1..], a + b, root);
      assert os == [x] + os[1..];
      SelectedAppend([x], os[1..], root);
      SelectedAppend(a, [x] + b, root);
      SelectedAppend([x], b, root);
      SelectedAppend(a, b, root);
      MovedFront(Selected([x], root), Selected(a, root), Selected(b, root), Selected(os[1..], root));
    }
  }

  lemma TakeOut<T>(s: seq<T>, t: seq<T>, i: nat)
    requires multiset(s) == multiset(t) && s != [] && i < |t| && t[i] == s[0]
    ensures t == t[..i] + ([s[0]] + t[i + 1..])
    ensures multiset(s[1..]) == multiset(t[..i] + t[i + 1..])
  {
    assert s == [s[0]] + s[1..];
    assert t == t[..i] + ([s[0]] + t[i + 1..]);
    assert multiset(s[1..]) == multiset(s) - multiset{s[0]};
    assert multiset(t) == multiset(t[..i]) + multiset{s[0]} + multiset(t[i + 1..]);
    assert multiset(t[..i]) + multiset(t[i + 1..]) == multiset(t) - multiset{s[0]};
    assert multiset(t[..i] + t[i + 1..]) == multiset(t[..i]) + multiset(t[i + 1..]);
  }

  lemma MovedFront<T>(x: seq<T>, a: seq<T>, b: seq<T>, r: seq<T>)
    requires multiset(r) == multiset(a + b)
    ensures multiset(x + r) == multiset(a + (x + b))
  {
  }

  lemma MultisetTwice<T>(s: seq<T>, i: nat, j: nat)
    requires i < j < |s| && s[i] == s[j]
    ensures multiset(s)[s[i]] >= 2
  {
    assert s == s[..j] + [s[j]] + s[j + 1..];
    assert multiset(s) == multiset(s[..j]) + multiset{s[j]} + multiset(s[j + 1..]);
    assert s[..j][i] == s[i];
    assert s[i] in multiset(s[..j]);
  }

  lemma {:induction false} OccursTwice<T>(s: seq<T>, x: T) returns (i: nat, j: nat)
    requires multiset(s)[x] >= 2
    ensures i < j < |s| && s[i] == x && s[j] == x
    decreases |s|
  {
    assert s == [s[0]] + s[1..];
    if s[0] == x {
      assert multiset(s[1..])[x] >= 1;
      var k :| 0 <= k < |s[1..]| && s[1..][k] == x;
      return 0, k + 1;
    } else {
      var a, b := OccursTwice(s[1..], x);
      return a + 1, b + 1;
    }
  }

  lemma DistinctPermutes(ps: seq<Prefix>, ps': seq<Prefix>)
    requires multiset(ps) == multiset(ps') && DistinctQnx(ps)
    ensures DistinctQnx(ps')
  {
    forall i, j | 0 <= i < j < |ps'| ensures ps'[i].qnx != ps'[j].qnx {
      var x, y := ps'[i], ps'[j];
      assert x in multiset(ps') && y in multiset(ps');
      var k :| 0 <= k < |ps| && ps[k] == x;
      var l :| 0 <= l < |ps| && ps[l] == y;
      if x == y {
        MultisetTwice(ps', i, j);
        var a, b := OccursTwice(ps, x);
      } else {
        assert k < l || l < k;
      }
    }
  }

  lemma AllConvertPermutes(os: seq<MapOption>, os': seq<MapOption>)
    requires multiset(os) == multiset(os') && AllConvert(os)
    ensures AllConvert(os')
  {
    hide Convert;
    forall k | 0 <= k < |os'| ensures Convert(os'[k]).Some? {
      assert os'[k] in multiset(os');
      assert os'[k] in os;
    }
  }

  /** The longest match does not depend on the order in which the prefixes are looked at. */
  lemma PickPermutes(root: Prefix, ps: seq<Prefix>, ps': seq<Prefix>, path: string)
    requires multiset(ps) == multiset(ps') && DistinctQnx(ps)
    ensures PickHost(root, ps, path) == PickHost(root, ps', path)
  {
    hide PickHost;
    PickHostMatches(root, ps, path);
    PickHostMatches(root, ps', path);
    assert forall c :: c in ps <==> c in multiset(ps);
    assert forall c :: c in ps' <==> c in multiset(ps');
    var r, r' := PickHost(root, ps, path), PickHost(root, ps', path);
    if r in ps && r' in ps && |r.qnx| == |r'.qnx| && r.qnx <= path && r'.qnx <= path {
      assert r.qnx == path[..|r.qnx|] == r'.qnx;
      var i :| 0 <= i < |ps| && ps[i] == r;
      var j :| 0 <= j < |ps| && ps[j] == r';
      assert i == j;
    }
  }

  /**
   The order of the -m options does not matter, when at most one of them maps the root: either both
   orders are rejected, or every QNX path is mapped through the same prefix.
   */
  lemma OrderDoesNotMatter(os: seq<MapOption>, os': seq<MapOption>, path: string)
    requires multiset(os) == multiset(os') && |Selected(os, true)| <= 1
    ensures var m, m' := AddAll(Mapper(DEFAULT_ROOT, []), os), AddAll(Mapper(DEFAULT_ROOT, []), os');
      && (m.Some? <==> m'.Some?)
      && (m.Some? ==> HostPrefixFor(m.value, path) == HostPrefixFor(m'.value, path))
  {
    hide PickHost, AddAll, Selected, AllConvert, DistinctQnx;
    var start := Mapper(DEFAULT_ROOT, []);
    NoneDistinct();
    AddAllExact(start, os);
    AddAllExact(start, os');
    SelectedPermutes(os, os', false);
    SelectedPermutes(os, os', true);
    var ps, ps' := Selected(os, false), Selected(os', false);
    assert [] + ps == ps && [] + ps' == ps';
    RootsSame(Selected(os, true), Selected(os', true));
    if AllConvert(os) && DistinctQnx(ps) {
      AllConvertPermutes(os, os');
      DistinctPermutes(ps, ps');
      PickPermutes(AddAll(start, os).value.root, ps, ps', path);
    }
    if AllConvert(os') && DistinctQnx(ps') {
      AllConvertPermutes(os', os);
      DistinctPermutes(ps', ps);
    }
  }

  lemma NoneDistinct()
    ensures DistinctQnx([])
  {
  }

  lemma RootsSame(a: seq<Prefix>, b: seq<Prefix>)
    requires multiset(a) == multiset(b) && |a| <= 1
    ensures a == b
  {
    assert |multiset(a)| == |a| && |multiset(b)| == |b|;
    if |a| == 1 {
      assert a[0] in multiset(b);
    }
  }

  // ----- the object

  /** A path and what is known of it. */
  datatype PathInfo = PathInfo(hostValid: bool, hostPath: string, qnxValid: bool, unmappable: bool, qnxPath: string, prefix: Option<Prefix>)

  class PathMapper {
    var root: Prefix
    var prefixes: seq<Prefix>

    function State(): Mapper
      reads this
    {
      Mapper(root, prefixes)
    }

    constructor ()
      ensures State() == Mapper(DEFAULT_ROOT, [])
    {
      root, prefixes := DEFAULT_ROOT, [];
    }

    method HasQnxPrefix(pfx: string) returns (has: bool)
      ensures has <==> pfx == "/" || HasQnx(prefixes, pfx)
    {
      if pfx == "/" {
        return true;
      }
      for i := 0 to |prefixes|
        invariant forall k :: 0 <= k < i ==> prefixes[k].qnx != pfx
      {
        if prefixes[i].qnx == pfx {
          return true;
        }
      }
      return false;
    }

    /** `ok` is false for a ConfigurationError. */
    method Add(o: MapOption) returns (ok: bool, overrun: bool)
      modifies this
      ensures overrun <==> Overruns(o.qnx) || Overruns(o.host)
      ensures ok == AddMap(old(State()), o).Some?
      ensures ok <==>
        && (o.exec == "" || o.exec == "qnx" || o.exec == "host")
        && (Normal(o.qnx) == "/" || !HasQnx(old(prefixes), Normal(o.qnx)))
      ensures ok && Normal(o.qnx) == "/" ==> Accepted(root, o) && prefixes == old(prefixes)
      ensures ok && Normal(o.qnx) != "/" ==>
        && root == old(root)
        && |prefixes| == |old(prefixes)| + 1 && prefixes[..|old(prefixes)|] == old(prefixes) && Accepted(prefixes[|old(prefixes)|], o)
      ensures State() == if ok then AddMap(old(State()), o).value else old(State())
    {
      var qnx, overQ := NormalizePath(o.qnx);
      var host, overH := NormalizePath(o.host);
      overrun := overQ || overH;
      var exec;
      if o.exec == "" {
        exec := if qnx == "/" then QNX else HOST;
      } else if o.exec == "qnx" {
        exec := QNX;
      } else if o.exec == "host" {
        exec := HOST;
      } else {
        return false, overrun;
      }
      var p := Prefix(host, qnx, exec);
      if qnx == "/" {
        root := p;
        return true, overrun;
      }
      var taken := HasQnxPrefix(qnx);
      if taken {
        return false, overrun;
      }
      prefixes := prefixes + [p];
      return true, overrun;
    }

    /** Fill in the QNX path. The flag for unmappable paths ends up set on both ways through. */
    method MapPathToQnx(info: PathInfo) returns (r: PathInfo)
      requires info.hostValid && (!info.qnxValid ==> Usable(QnxPrefixFor(State(), info.hostPath)))
      ensures info.qnxValid ==> r == info
      ensures !info.qnxValid ==> var p := QnxPrefixFor(State(), info.hostPath);
        && (p.Some? ==> p.value.host <= info.hostPath && p.value.qnx != "")
        && r == info.(qnxValid := true, unmappable := true, prefix := None,
             qnxPath := if p.Some? then ChangePrefix(p.value.host, p.value.qnx, info.hostPath) else "/unmapped/" + info.hostPath)
    {
      if info.qnxValid {
        return info;
      }
      PickQnxMatches(None, prefixes, info.hostPath);
      var pfx: Option<Prefix> := None;
      for i := 0 to |prefixes|
        invariant PickQnx(pfx, prefixes[i..], info.hostPath) == PickQnx(None, prefixes, info.hostPath)
      {
        var c := prefixes[i];
        if c.host <= info.hostPath {
          if pfx.None? || |c.qnx| < |pfx.value.qnx| {
            pfx := Some(c);
          }
        }
      }
      if root.host <= info.hostPath {
        pfx := Some(root);
      }
      if pfx.None? {
        return info.(qnxValid := true, prefix := None, unmappable := true, qnxPath := "/unmapped/" + info.hostPath);
      }
      var path := ChangePrefixOf(pfx.value.host, pfx.value.qnx, info.hostPath);
      r := info.(qnxValid := true, unmappable := true, qnxPath := path, prefix := None);
    }

    /** Fill in the host path and the prefix it was mapped through. */
    method MapPathToHost(info: PathInfo) returns (r: PathInfo)
      requires info.qnxValid
      requires !info.hostValid ==> var p := HostPrefixFor(State(), info.qnxPath);
        Usable(Some(p)) && |p.qnx| <= |info.qnxPath|
      ensures info.hostValid ==> r == info
      ensures !info.hostValid ==> var p := HostPrefixFor(State(), info.qnxPath);
        && (p.qnx <= info.qnxPath || p == root) && |p.qnx| <= |info.qnxPath| && p.host != ""
        && r == info.(hostValid := true, hostPath := ChangePrefix(p.qnx, p.host, info.qnxPath), prefix := Some(p))
    {
      if info.hostValid {
        return info;
      }
      PickHostMatches(root, prefixes, info.qnxPath);
      var pfx := root;
      for i := 0 to |prefixes|
        invariant PickHost(pfx, prefixes[i..], info.qnxPath) == PickHost(root, prefixes, info.qnxPath)
      {
        var c := prefixes[i];
        if c.qnx <= info.qnxPath {
          if |c.qnx| > |pfx.qnx| {
            pfx := c;
          }
        }
      }
      var path := ChangePrefixOf(pfx.qnx, pfx.host, info.qnxPath);
      r := info.(hostValid := true, hostPath := path, prefix := Some(pfx));
    }
  }
}
