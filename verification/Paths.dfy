/** Lexical normalisation of paths and exchange of path prefixes (src/path_mapper.cpp, src/fsutil.cpp). */
module Paths {

  /** The contents of a C string. */
  type CString = s: string | '\0' !in s witness ""

  predicate IsAbs(s: string) { s != "" && s[0] == '/' }

  // ----- components

  /** The next separator at or after i, or the end. */
  function NextSep(s: string, i: nat): (j: nat)
    requires i <= |s|
    ensures i <= j <= |s| && (j < |s| ==> s[j] == '/') && forall k :: i <= k < j ==> s[k] != '/'
    decreases |s| - i
  {
    if i == |s| || s[i] == '/' then i else NextSep(s, i + 1)
  }

  /** The parts between separators, from position i on; nothing follows a final separator. */
  function Split(s: string, i: nat): seq<string>
    requires i <= |s|
    decreases |s| - i
  {
    if i == |s| then []
    else
      var j := NextSep(s, i);
      [s[i..j]] + (if j < |s| then Split(s, j + 1) else [])
  }

  lemma SplitOnce(s: string, i: nat, j: nat)
    requires i < |s| && NextSep(s, i) == j
    ensures i <= j <= |s|
    ensures Split(s, i) == [s[i..j]] + (if j < |s| then Split(s, j + 1) else [])
  {
  }

  lemma SplitAtEnd(s: string)
    ensures Split(s, |s|) == []
  {
  }

  function Parts(s: string): seq<string> { Split(s, if IsAbs(s) then 1 else 0) }

  /** Empty parts and "." do nothing, ".." takes the last component away if there is one. */
  function Push(stack: seq<string>, part: string): seq<string> {
    if part == "" || part == "." then stack
    else if part == ".." then (if stack == [] then stack else stack[..|stack| - 1])
    else stack + [part]
  }

  function PushAll(stack: seq<string>, parts: seq<string>): seq<string>
    decreases |parts|
  {
    if parts == [] then stack else PushAll(Push(stack, parts[0]), parts[1..])
  }

  function Join(abs: bool, stack: seq<string>): string {
    if stack == [] then (if abs then "/" else "")
    else if |stack| == 1 then (if abs then "/" else "") + stack[0]
    else Join(abs, stack[..|stack| - 1]) + "/" + stack[|stack| - 1]
  }

  function StackOf(s: string): seq<string> { PushAll([], Parts(s)) }

  /** The reference: the stack of components, joined. */
  function Normal(s: string): string { Join(IsAbs(s), StackOf(s)) }

  // ----- clean stacks

  predicate Clean(part: string) { part != "" && part != "." && part != ".." && '/' !in part }

  predicate AllClean(stack: seq<string>) { forall k :: 0 <= k < |stack| ==> Clean(stack[k]) }

  lemma {:induction false} SplitHasNoSeparator(s: string, i: nat)
    requires i <= |s|
    ensures forall k :: 0 <= k < |Split(s, i)| ==> '/' !in Split(s, i)[k]
    decreases |s| - i
  {
    if i < |s| {
      var j := NextSep(s, i);
      if j < |s| {
        SplitHasNoSeparator(s, j + 1);
      }
    }
  }

  lemma {:induction false} PushAllClean(stack: seq<string>, parts: seq<string>)
    requires AllClean(stack) && forall k :: 0 <= k < |parts| ==> '/' !in parts[k]
    ensures AllClean(PushAll(stack, parts))
    decreases |parts|
  {
    if parts != [] {
      PushAllClean(Push(stack, parts[0]), parts[1..]);
    }
  }

  lemma StackIsClean(s: string)
    ensures AllClean(PushAll([], Parts(s)))
  {
    SplitHasNoSeparator(s, if IsAbs(s) then 1 else 0);
    PushAllClean([], Parts(s));
  }

  lemma {:induction false} PushAllOfClean(stack: seq<string>, parts: seq<string>)
    requires AllClean(parts)
    ensures PushAll(stack, parts) == stack + parts
    decreases |parts|
  {
    if parts != [] {
      PushAllOfClean(stack + [parts[0]], parts[1..]);
      assert stack + [parts[0]] + parts[1..] == stack + parts;
    } else {
      assert stack + parts == stack;
    }
  }

  // ----- joining and splitting again

  lemma NextSepIs(s: string, i: nat, j: nat)
    requires i <= j <= |s| && (j < |s| ==> s[j] == '/') && forall k :: i <= k < j ==> s[k] != '/'
    ensures NextSep(s, i) == j
  {
  }

  lemma {:induction false} NextSepShift(p: string, b: string, i: nat)
    requires i <= |b|
    ensures NextSep(p + b, |p| + i) == |p| + NextSep(b, i)
    decreases |b| - i
  {
    if i < |b| {
      assert (p + b)[|p| + i] == b[i];
      if b[i] != '/' {
        NextSepShift(p, b, i + 1);
      }
    }
  }

  /** Splitting goes through a separator that follows a non-empty last part. */
  lemma {:induction false} SplitAt(a: string, b: string, i: nat)
    requires i < |a| && a[|a| - 1] != '/'
    ensures Split(a + "/" + b, i) == Split(a, i) + Split(b, 0)
    decreases |a| - i
  {
    hide Split, NextSep;
    var s := a + "/" + b;
    var j := NextSep(a, i);
    NextSepIs(s, i, j);
    assert s[i..j] == a[i..j];
    SplitOnce(a, i, j);
    SplitOnce(s, i, j);
    if j < |a| {
      SplitAt(a, b, j + 1);
      assert [a[i..j]] + (Split(a, j + 1) + Split(b, 0)) == [a[i..j]] + Split(a, j + 1) + Split(b, 0);
    } else {
      SplitShift(a + "/", b, 0);
    }
  }

  lemma {:induction false} SplitShift(p: string, b: string, i: nat)
    requires i <= |b|
    ensures Split(p + b, |p| + i) == Split(b, i)
    decreases |b| - i
  {
    hide Split, NextSep;
    if i < |b| {
      var j := NextSep(b, i);
      NextSepShift(p, b, i);
      SplitOnce(b, i, j);
      SplitOnce(p + b, |p| + i, |p| + j);
      assert (p + b)[|p| + i..|p| + j] == b[i..j];
      if j < |b| {
        SplitShift(p, b, j + 1);
      }
    } else {
      SplitAtEnd(b);
      SplitAtEnd(p + b);
    }
  }

  lemma SplitSingle(part: string)
    requires Clean(part)
    ensures Split(part, 0) == [part]
  {
    NextSepIs(part, 0, |part|);
    assert part[0..|part|] == part;
  }

  lemma {:induction false} JoinShape(abs: bool, stack: seq<string>)
    requires AllClean(stack) && stack != []
    ensures |Join(abs, stack)| > (if abs then 1 else 0)
    ensures Join(abs, stack)[|Join(abs, stack)| - 1] != '/'
    ensures IsAbs(Join(abs, stack)) == abs
    decreases |stack|
  {
    var last := stack[|stack| - 1];
    assert last[|last| - 1] in last && last[0] in last;
    if |stack| > 1 {
      JoinShape(abs, stack[..|stack| - 1]);
    }
  }

  lemma {:induction false} PartsOfJoin(abs: bool, stack: seq<string>)
    requires AllClean(stack)
    ensures IsAbs(Join(abs, stack)) == abs && Parts(Join(abs, stack)) == stack
    decreases |stack|
  {
    if stack != [] {
      JoinShape(abs, stack);
      var init, last := stack[..|stack| - 1], stack[|stack| - 1];
      SplitSingle(last);
      assert init + [last] == stack;
      if init == [] {
        SplitShift(if abs then "/" else "", last, 0);
        assert "" + last == last;
      } else {
        JoinShape(abs, init);
        PartsOfJoin(abs, init);
        SplitAt(Join(abs, init), last, if abs then 1 else 0);
      }
    }
  }

  /** A path is in normal form. */
  predicate IsNormal(s: string) { Normal(s) == s }

  lemma JoinIsNormal(abs: bool, stack: seq<string>)
    requires AllClean(stack)
    ensures IsNormal(Join(abs, stack))
  {
    PartsOfJoin(abs, stack);
    PushAllOfClean([], stack);
    assert [] + stack == stack;
  }

  /** In normal form means: the parts are clean and joining them gives the path. */
  lemma NormalForm(s: string)
    ensures IsNormal(s) <==> AllClean(Parts(s)) && Join(IsAbs(s), Parts(s)) == s
  {
    StackIsClean(s);
    PartsOfJoin(IsAbs(s), PushAll([], Parts(s)));
    if AllClean(Parts(s)) {
      PushAllOfClean([], Parts(s));
      assert [] + Parts(s) == Parts(s);
    }
  }

  /**
   Normalising is idempotent, keeps absolute paths absolute and relative ones relative, and leaves
   no trailing separator except in the root path.
   */
  lemma NormalProperties(s: string)
    ensures IsNormal(Normal(s)) && IsAbs(Normal(s)) == IsAbs(s)
    ensures Normal(s) != "" && Normal(s)[|Normal(s)| - 1] == '/' ==> Normal(s) == "/"
  {
    StackIsClean(s);
    var stack := PushAll([], Parts(s));
    assert Normal(s) == Join(IsAbs(s), stack);
    JoinIsNormal(IsAbs(s), stack);
    PartsOfJoin(IsAbs(s), stack);
    if stack != [] {
      JoinShape(IsAbs(s), stack);
    }
  }

  // ----- what is put behind a path

  /** The parts behind a path are pushed on its stack, whatever separators the path ends in. */
  lemma {:induction false} PushBehind(stack: seq<string>, s: string, b: string, i: nat)
    requires i <= |s|
    ensures PushAll(stack, Split(s + "/" + b, i)) == PushAll(PushAll(stack, Split(s, i)), Split(b, 0))
    decreases |s| - i
  {
    hide Split, NextSep, Push;
    var all := s + "/" + b;
    var j := NextSep(s, i);
    NextSepPart(s, i, j);
    NextSepIs(all, i, j);
    SplitOnce(all, i, j);
    assert all[i..j] == s[i..j];
    SplitShift(s + "/", b, 0);
    if i == |s| {
      SplitAtEnd(s);
      PushAllStep(stack, "", Split(b, 0));
      PushEmpty(stack);
    } else {
      SplitOnce(s, i, j);
      var next := Push(stack, s[i..j]);
      if j < |s| {
        PushBehind(next, s, b, j + 1);
        PushAllStep(stack, s[i..j], Split(s, j + 1));
        PushAllStep(stack, s[i..j], Split(all, j + 1));
      } else {
        PushAllStep(stack, s[i..j], []);
        PushAllStep(stack, s[i..j], Split(b, 0));
        assert PushAll(next, []) == next;
      }
    }
  }

  lemma PushEmpty(stack: seq<string>)
    ensures Push(stack, "") == stack
  {
  }

  lemma StackBehind(s: string, b: string)
    requires s != ""
    ensures IsAbs(s + "/" + b) == IsAbs(s) && StackOf(s + "/" + b) == PushAll(StackOf(s), Split(b, 0))
  {
    PushBehind([], s, b, if IsAbs(s) then 1 else 0);
  }

  lemma PushOne(stack: seq<string>, part: string)
    ensures PushAll(stack, [part]) == Push(stack, part)
  {
    hide Push;
    assert [part][1..] == [];
    assert PushAll(Push(stack, part), []) == Push(stack, part);
  }

  /** A component goes behind the normal form. */
  lemma NormalComponent(s: string, c: string)
    requires s != "" && Clean(c)
    ensures Normal(s + "/" + c) == Normal(s) + (if Normal(s) == "" || Normal(s) == "/" then "" else "/") + c
  {
    hide Split, Join, Push, Clean;
    StackBehind(s, c);
    SplitSingle(c);
    PushOne(StackOf(s), c);
    StackIsClean(s);
    PushComponent(StackOf(s), c);
    JoinNext(IsAbs(s), StackOf(s), c);
    NormalProperties(s);
  }

  lemma PushComponent(stack: seq<string>, c: string)
    requires Clean(c)
    ensures Push(stack, c) == stack + [c] && Push(stack + [c], "..") == stack
  {
  }

  /** An empty part or "." behind a path changes nothing. */
  lemma NormalDot(s: string)
    requires s != ""
    ensures Normal(s + "/") == Normal(s) && Normal(s + "/.") == Normal(s)
  {
    hide Join;
    StackBehind(s, "");
    StackBehind(s, ".");
    assert s + "/" + "" == s + "/" && s + "/" + "." == s + "/.";
    NextSepIs(".", 0, 1);
    assert Split(".", 0) == ["."];
    PushOne(StackOf(s), ".");
  }

  /** A component and ".." behind it cancel out. */
  lemma NormalParent(s: string, c: string)
    requires s != "" && Clean(c)
    ensures Normal(s + "/" + c + "/..") == Normal(s)
  {
    hide Split, Join, Push, Clean, NextSep;
    var t := s + "/" + c;
    assert t + "/" + ".." == s + "/" + c + "/..";
    StackBehind(s, c);
    SplitSingle(c);
    PushOne(StackOf(s), c);
    PushComponent(StackOf(s), c);
    StackBehind(t, "..");
    SplitDotDot();
    PushOne(StackOf(t), "..");
  }

  lemma SplitDotDot()
    ensures Split("..", 0) == [".."]
  {
    var s := "..";
    NextSepIs(s, 0, 2);
    assert s[0..2] == s;
  }

  /** With nothing left to take away, ".." changes nothing. */
  lemma NormalTop(s: string)
    requires s != "" && (Normal(s) == "" || Normal(s) == "/")
    ensures Normal(s + "/..") == Normal(s)
  {
    hide Split, Push, NextSep;
    assert s + "/" + ".." == s + "/..";
    StackIsClean(s);
    if StackOf(s) != [] {
      JoinShape(IsAbs(s), StackOf(s));
    }
    StackBehind(s, "..");
    SplitDotDot();
    PushOne(StackOf(s), "..");
    TopStays();
  }

  lemma TopStays()
    ensures Push([], "..") == []
  {
  }

  // ----- the string editing

  /** The C string's character at i; its terminator at the end. */
  function CharAt(s: string, i: nat): char { if i < |s| then s[i] else '\0' }

  /** strncmp(s + i, t, n) == 0 */
  predicate SameChars(s: CString, i: nat, t: CString, k: nat, n: nat)
    decreases n
  {
    n == 0 || (CharAt(s, i) == CharAt(t, k) && (CharAt(s, i) == '\0' || SameChars(s, i + 1, t, k + 1, n - 1)))
  }

  /** Which branch of normalize_path a part takes: nothing for empty and ".", pop for "..". */
  lemma PartBranches(path: CString, i: nat, j: nat)
    requires i <= j <= |path|
    ensures SameChars(path, i, ".", 0, j - i) <==> path[i..j] == "" || path[i..j] == "."
    ensures !SameChars(path, i, ".", 0, j - i) ==> (SameChars(path, i, "..", 0, j - i) <==> path[i..j] == "..")
  {
    forall k | i <= k < j ensures CharAt(path, k) == path[k] != '\0' { assert path[k] in path; }
    if j - i == 1 {
      assert path[i..j] == [path[i]];
      assert SameChars(path, i, ".", 0, 1) <==> path[i] == '.';
      assert SameChars(path, i, "..", 0, 1) <==> path[i] == '.';
    } else if j - i == 2 {
      assert path[i..j] == [path[i], path[i + 1]];
      assert SameChars(path, i, ".", 0, 2) <==> false;
      assert SameChars(path, i + 1, "..", 1, 1) <==> path[i + 1] == '.';
      assert SameChars(path, i, "..", 0, 2) <==> path[i] == '.' && path[i + 1] == '.';
    } else if j - i > 2 {
      assert !SameChars(path, i + 1, ".", 1, j - i - 1);
      assert !SameChars(path, i + 2, "..", 2, j - i - 2);
    }
  }

  /**
   Take the last component away: back to the separator, and the separator too unless nothing is in
   front of it. The loop asks for the last character before it asks whether there is one; `overrun`
   says that it did so on an empty string. Whatever it reads there, the loop ends.
   */
  method PopPath(dst: string, ghost abs: bool, ghost stack: seq<string>) returns (r: string, overrun: bool)
    requires AllClean(stack) && stack != [] && dst == Join(abs, stack)
    ensures r == Join(abs, stack[..|stack| - 1])
    ensures overrun <==> !abs && |stack| == 1
  {
    ghost var init, last := stack[..|stack| - 1], stack[|stack| - 1];
    ghost var base := if init == [] then (if abs then "/" else "") else Join(abs, init) + "/";
    assert init + [last] == stack;
    assert dst == base + last;
    r, overrun := dst, false;
    while true
      invariant |base| <= |r| <= |dst| && r == dst[..|r|] && !overrun
      decreases |r|
    {
      if r == "" {
        overrun := true;
        break;
      }
      if r[|r| - 1] == '/' {
        break;
      }
      r := r[..|r| - 1];
    }
    LastSeparator(base, last, r);
    if |r| > 1 {
      r := r[..|r| - 1];
    }
    if init != [] {
      JoinShape(abs, init);
    }
  }

  lemma LastSeparator(base: string, last: string, r: string)
    requires '/' !in last && |base| <= |r| <= |base + last| && r == (base + last)[..|r|]
    requires base == "" || base[|base| - 1] == '/'
    requires r == "" || r[|r| - 1] == '/'
    ensures r == base
  {
  }

  /** One part of the path: skip it, pop for it, or append it. */
  method AddPart(dst: string, segments: nat, path: CString, i: nat, nextSep: nat, ghost abs: bool, ghost stack: seq<string>)
    returns (dst': string, segments': nat, overrun: bool)
    requires i <= nextSep <= |path| && '/' !in path[i..nextSep]
    requires AllClean(stack) && dst == Join(abs, stack) && segments == |stack|
    ensures var next := Push(stack, path[i..nextSep]);
      AllClean(next) && dst' == Join(abs, next) && segments' == |next|
    ensures overrun <==> !abs && PopsLast(stack, path[i..nextSep])
  {
    hide SameChars, Clean, AllClean, Join;
    dst', segments', overrun := dst, segments, false;
    var partLen := nextSep - i;
    ghost var part := path[i..nextSep];
    PartBranches(path, i, nextSep);
    PushClean(stack, part);
    if SameChars(path, i, ".", 0, partLen) {
      // just skip
    } else if SameChars(path, i, "..", 0, partLen) {
      if segments > 0 {
        dst', overrun := PopPath(dst, abs, stack);
        segments' := segments - 1;
      }
    } else if partLen > 0 {
      JoinNext(abs, stack, part);
      if dst' != "" && dst'[|dst'| - 1] != '/' {
        dst' := dst' + "/";
      }
      dst' := dst' + path[i..nextSep];
      segments' := segments' + 1;
    }
  }

  // ----- when the editing reads in front of the string

  /** A ".." that takes the only component away. */
  predicate PopsLast(stack: seq<string>, part: string) { part == ".." && |stack| == 1 }

  predicate PopsLastIn(stack: seq<string>, parts: seq<string>)
    decreases |parts|
  {
    parts != [] && (PopsLast(stack, parts[0]) || PopsLastIn(Push(stack, parts[0]), parts[1..]))
  }

  /** A relative path of which some ".." takes the only component away. */
  predicate Overruns(path: string) { !IsAbs(path) && PopsLastIn([], Parts(path)) }

  lemma OverrunHappens()
    ensures Overruns("a/..") && Normal("a/..") == ""
  {
    var s := "a/..";
    NextSepIs(s, 0, 1);
    NextSepIs(s, 2, 4);
    assert s[0..1] == "a" && s[2..4] == "..";
    assert Parts(s) == ["a", ".."];
    assert Push([], "a") == ["a"] && ["a", ".."][1..] == [".."];
    assert PopsLastIn(["a"], [".."]);
  }

  /**
   normalize_path: at every point the string is the joined stack of the components so far. The
   last character of an empty string is asked for exactly when Overruns says so.
   */
  method NormalizePath(path: CString) returns (dst: string, overrun: bool)
    ensures dst == Normal(path)
    ensures IsNormal(dst) && IsAbs(dst) == IsAbs(path)
    ensures overrun <==> Overruns(path)
  {
    hide Split, NextSep, AllClean, Push;
    ghost var abs := IsAbs(path);
    var i := 0;
    dst, overrun := "", false;
    if CharAt(path, 0) == '/' {
      dst := "/";
      i := 1;
    }
    var segments := 0;
    ghost var stack: seq<string> := [];
    SplitHasNoSeparator(path, i);
    NoneClean();
    SplitAtEnd(path);
    while i < |path|
      invariant i <= |path| && dst == Join(abs, stack) && segments == |stack| && AllClean(stack)
      invariant PushAll(stack, Split(path, i)) == PushAll([], Parts(path))
      invariant Overruns(path) <==> overrun || (!abs && PopsLastIn(stack, Split(path, i)))
      decreases |path| - i
    {
      var nextSep := NextSep(path, i);
      NextSepPart(path, i, nextSep);
      SplitOnce(path, i, nextSep);
      var over;
      dst, segments, over := AddPart(dst, segments, path, i, nextSep, abs, stack);
      overrun := overrun || over;
      PushAllStep(stack, path[i..nextSep], if nextSep < |path| then Split(path, nextSep + 1) else []);
      stack := Push(stack, path[i..nextSep]);
      i := nextSep;
      if i < |path| {
        i := i + 1;
      }
    }
    NormalProperties(path);
  }

  lemma NoneClean()
    ensures AllClean([])
  {
  }

  lemma NextSepPart(s: string, i: nat, j: nat)
    requires i <= |s| && NextSep(s, i) == j
    ensures i <= j <= |s| && '/' !in s[i..j]
  {
  }

  lemma PushAllStep(stack: seq<string>, part: string, rest: seq<string>)
    ensures PushAll(stack, [part] + rest) == PushAll(Push(stack, part), rest)
    ensures PopsLastIn(stack, [part] + rest) <==> PopsLast(stack, part) || PopsLastIn(Push(stack, part), rest)
  {
  }

  lemma PushClean(stack: seq<string>, part: string)
    requires AllClean(stack) && '/' !in part
    ensures AllClean(Push(stack, part))
  {
  }

  lemma JoinNext(abs: bool, stack: seq<string>, part: string)
    requires AllClean(stack)
    ensures var dst := Join(abs, stack);
      Join(abs, stack + [part]) == (if dst != "" && dst[|dst| - 1] != '/' then dst + "/" else dst) + part
  {
  }
}
