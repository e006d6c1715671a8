/** The argument and environment lists a program is started with (setup_startup_context in src/process.cpp). */
module StartLists {
  import opened Words
  import opened Startup

  // ----- arguments

  /** A script: the interpreter, its own arguments if any, and the script. */
  datatype Interpreter = Interpreter(path: CString, args: CString, original: CString)

  /** The name to put in front and the arguments; argv[0] gives way to the interpreter. */
  method ChooseArgs(interpreter: Option<Interpreter>, argv: seq<CString>) returns (exec: CString, args: seq<CString>)
    requires argv != []
    ensures interpreter.None? ==> exec == argv[0] && args == argv
    ensures interpreter.Some? ==> var i := interpreter.value;
      && exec == i.original
      && args == [i.path] + (if i.args == [] then [] else [i.args]) + [i.original] + argv[1..]
  {
    if interpreter.None? {
      exec, args := argv[0], [argv[0]];
    } else {
      var i := interpreter.value;
      exec, args := i.original, [i.path];
      if i.args != [] {
        args := args + [i.args];
      }
      args := args + [i.original];
    }
    ghost var front := args;
    for i := 1 to |argv|
      invariant args == front + argv[1..i]
    {
      args := args + [argv[i]];
    }
    assert argv[1..|argv|] == argv[1..];
  }

  // ----- environment

  const CWD_KEY: CString := [95, 95, 67, 87, 68, 61]
  const PFX_KEY: CString := [95, 95, 80, 70, 88, 61]
  const DEFAULT_PFX: CString := PFX_KEY + [47, 47, 49]

  predicate Plain(e: CString) { !(CWD_KEY <= e) && !(PFX_KEY <= e) }

  function Others(es: seq<CString>): seq<CString> {
    if es == [] then []
    else Others(es[..|es| - 1]) + (if Plain(es[|es| - 1]) then [es[|es| - 1]] else [])
  }

  function LastWith(es: seq<CString>, key: CString, otherwise: CString): CString {
    if es == [] then otherwise
    else if key <= es[|es| - 1] then es[|es| - 1]
    else LastWith(es[..|es| - 1], key, otherwise)
  }

  /** The plain strings in their order, then the prefix, then the working directory. */
  function StartEnv(es: seq<CString>, cwd: CString): seq<CString> {
    Others(es) + [LastWith(es, PFX_KEY, DEFAULT_PFX), LastWith(es, CWD_KEY, CWD_KEY + cwd)]
  }

  lemma {:induction false} LastWithKey(es: seq<CString>, key: CString, otherwise: CString)
    requires key <= otherwise
    ensures key <= LastWith(es, key, otherwise)
  {
    if es != [] && !(key <= es[|es| - 1]) {
      LastWithKey(es[..|es| - 1], key, otherwise);
    }
  }

  lemma {:induction false} OthersPlain(es: seq<CString>)
    ensures forall e :: e in Others(es) ==> Plain(e) && e in es
    ensures forall e :: e in es && Plain(e) ==> e in Others(es)
    ensures Others(Others(es)) == Others(es)
  {
    hide Plain;
    if es != [] {
      var init, last := es[..|es| - 1], es[|es| - 1];
      OthersPlain(init);
      assert es == init + [last];
      if Plain(last) {
        OthersAppend(Others(init), last);
      } else {
        assert Others(es) == Others(init);
      }
    }
  }

  lemma OthersAppend(es: seq<CString>, e: CString)
    ensures Others(es + [e]) == Others(es) + (if Plain(e) then [e] else [])
  {
  }

  lemma LastWithAppend(es: seq<CString>, e: CString, key: CString, otherwise: CString)
    ensures LastWith(es + [e], key, otherwise) == if key <= e then e else LastWith(es, key, otherwise)
  {
  }

  /** The environment's plain strings, in order and first, then exactly one prefix and one working directory. */
  lemma EnvExact(es: seq<CString>, cwd: CString)
    ensures var env := StartEnv(es, cwd);
      && |env| == |Others(es)| + 2 && env[..|Others(es)|] == Others(es)
      && (forall k :: 0 <= k < |env| ==> (Plain(env[k]) <==> k < |Others(es)|))
      && (forall k :: 0 <= k < |env| ==> (PFX_KEY <= env[k] <==> k == |Others(es)|))
      && (forall k :: 0 <= k < |env| ==> (CWD_KEY <= env[k] <==> k == |Others(es)| + 1))
      && multiset(Others(es)) <= multiset(es)
      && (forall e: CString :: Plain(e) ==> multiset(Others(es))[e] == multiset(es)[e])
  {
    hide Others, LastWith, Plain;
    var (os, p, c) := (Others(es), LastWith(es, PFX_KEY, DEFAULT_PFX), LastWith(es, CWD_KEY, CWD_KEY + cwd));
    LastWithKey(es, PFX_KEY, DEFAULT_PFX);
    LastWithKey(es, CWD_KEY, CWD_KEY + cwd);
    OthersPlain(es);
    OthersCount(es);
    KeysApart(p, c);
    var env := StartEnv(es, cwd);
    forall k | 0 <= k < |os|
      ensures env[k] == os[k] && Plain(env[k]) && !(PFX_KEY <= env[k]) && !(CWD_KEY <= env[k])
    {
      assert os[k] in os;
      PlainIs(os[k]);
    }
  }

  lemma {:induction false} OthersCount(es: seq<CString>)
    ensures multiset(Others(es)) <= multiset(es)
    ensures forall e: CString :: Plain(e) ==> multiset(Others(es))[e] == multiset(es)[e]
  {
    hide Plain;
    if es != [] {
      OthersCount(es[..|es| - 1]);
      assert es == es[..|es| - 1] + [es[|es| - 1]];
    }
  }

  /** The value kept for a key is the last one given, or the default if none was. */
  lemma {:induction false} LastWithExact(es: seq<CString>, key: CString, otherwise: CString) returns (k: int)
    ensures -1 <= k < |es| && forall j :: k < j < |es| ==> !(key <= es[j])
    ensures if k == -1 then LastWith(es, key, otherwise) == otherwise
      else key <= es[k] && LastWith(es, key, otherwise) == es[k]
  {
    k := |es| - 1;
    if es != [] && !(key <= es[k]) {
      k := LastWithExact(es[..k], key, otherwise);
    }
  }

  /**
   A program that hands its environment on, and has it prepared again for the new program, hands
   on exactly what it got, wherever it is started: one prefix, one working directory, and all
   other strings in their order.
   */
  lemma EnvStable(es: seq<CString>, cwd: CString, later: CString)
    ensures StartEnv(StartEnv(es, cwd), later) == StartEnv(es, cwd)
    ensures forall e :: e in StartEnv(es, cwd) && CWD_KEY <= e ==> e == LastWith(es, CWD_KEY, CWD_KEY + cwd)
    ensures forall e :: e in StartEnv(es, cwd) && PFX_KEY <= e ==> e == LastWith(es, PFX_KEY, DEFAULT_PFX)
  {
    hide Others, LastWith, Plain;
    var (os, p, c) := (Others(es), LastWith(es, PFX_KEY, DEFAULT_PFX), LastWith(es, CWD_KEY, CWD_KEY + cwd));
    var all := StartEnv(es, cwd);
    LastWithKey(es, PFX_KEY, DEFAULT_PFX);
    LastWithKey(es, CWD_KEY, CWD_KEY + cwd);
    OthersPlain(es);
    KeysApart(p, c);
    assert all == os + [p] + [c];
    OthersAppend(os, p);
    OthersAppend(os + [p], c);
    LastWithAppend(os + [p], c, CWD_KEY, CWD_KEY + later);
    LastWithAppend(os + [p], c, PFX_KEY, DEFAULT_PFX);
    LastWithAppend(os, p, PFX_KEY, DEFAULT_PFX);
    forall e | e in os ensures !(CWD_KEY <= e) && !(PFX_KEY <= e) {
      PlainIs(e);
    }
  }

  lemma PlainIs(e: CString)
    ensures Plain(e) <==> !(CWD_KEY <= e) && !(PFX_KEY <= e)
  {
  }

  lemma KeysApart(p: CString, c: CString)
    requires PFX_KEY <= p && CWD_KEY <= c
    ensures !(CWD_KEY <= p) && !(PFX_KEY <= c) && !Plain(p) && !Plain(c)
  {
    assert p[2] == PFX_KEY[2] && c[2] == CWD_KEY[2];
  }

  method ChooseEnv(environ: seq<CString>, cwd: CString) returns (env: seq<CString>)
    ensures env == StartEnv(environ, cwd)
  {
    var envCwd: CString, envPfx: CString := [], [];
    for i := 0 to |environ|
      invariant envCwd == LastWith(environ[..i], CWD_KEY, []) && envPfx == LastWith(environ[..i], PFX_KEY, [])
    {
      assert environ[..i + 1] == environ[..i] + [environ[i]];
      LastWithAppend(environ[..i], environ[i], CWD_KEY, []);
      LastWithAppend(environ[..i], environ[i], PFX_KEY, []);
      if CWD_KEY <= environ[i] {
        envCwd := environ[i];
      }
      if PFX_KEY <= environ[i] {
        envPfx := environ[i];
      }
    }
    env := [];
    for i := 0 to |environ|
      invariant env == Others(environ[..i])
    {
      assert environ[..i + 1] == environ[..i] + [environ[i]];
      OthersAppend(environ[..i], environ[i]);
      if CWD_KEY <= environ[i] {
        continue;
      }
      if PFX_KEY <= environ[i] {
        continue;
      }
      env := env + [environ[i]];
    }
    assert environ[..|environ|] == environ;
    FoundOrEmpty(environ, CWD_KEY, CWD_KEY + cwd);
    FoundOrEmpty(environ, PFX_KEY, DEFAULT_PFX);
    if envPfx != [] {
      env := env + [envPfx];
    } else {
      env := env + [DEFAULT_PFX];
    }
    if envCwd == [] {
      envCwd := CWD_KEY + cwd;
    }
    env := env + [envCwd];
  }

  /** An empty result means that no string has the key. */
  lemma {:induction false} FoundOrEmpty(es: seq<CString>, key: CString, otherwise: CString)
    requires key != []
    ensures LastWith(es, key, otherwise) == if LastWith(es, key, []) != [] then LastWith(es, key, []) else otherwise
  {
    if es != [] && !(key <= es[|es| - 1]) {
      FoundOrEmpty(es[..|es| - 1], key, otherwise);
    }
  }
}
