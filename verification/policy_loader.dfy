// The policy loader: installing the configured sources, and choosing which
// policy files are enabled. File access, globbing and the transpiler are
// parameters.

module PolicyLoader {
  import opened Wrappers
  import PyDict
  import Seqs
  import Utils
  import Models
  import Policybook
  import Engines
  import Config

  /** A loader's configuration: the patterns and sources it holds. */
  datatype Loader = Loader(workdir: string, patterns: seq<Config.PolicyPattern>, sources: seq<Config.Source>)

  /** What the loader sees of the file system: the directory and file tests
    * and the policybook readers Source.install uses. */
  datatype Env = Env(
    nonEmptyDir: string -> bool,
    isFile: string -> bool,
    loadFile: string -> Policybook.PolicySetAst,
    loadDir: string -> seq<Policybook.PolicySetAst>)

  // ---------------------------------------------------------------------
  // Installing
  // ---------------------------------------------------------------------

  /** A source Source.install rejects: not yet installed, and of a type
    * other than "path" and "galaxy". */
  predicate Unsupported(workdir: string, s: Config.Source, env: Env)
  {
    !env.nonEmptyDir(Engines.PathJoin(workdir, s.name)) && s.kind != "path" && s.kind != "galaxy"
  }

  /** One source's contribution to install: its policies, or none when it
    * returns None or an empty list. */
  function InstallOne(workdir: string, s: Config.Source, env: Env): (r: Result<seq<Models.Policy>>)
    ensures r.Err? <==> Unsupported(workdir, s, env)
    ensures r.Ok? ==> forall i :: 0 <= i < |r.value| ==> r.value[i].isPolicybook && r.value[i].policybookData.Some?
  {
    match Config.Install(s, workdir, false, env.nonEmptyDir, env.isFile, env.loadFile, env.loadDir)
    case Err(e) => Err(e)
    case Ok(None) => Ok([])
    case Ok(Some(ps)) => Ok(ps)
  }

  /** PolicyLoader.install: every source installed under the work directory
    * without force, in source order; the first failing source fails the
    * call. */
  function InstallAll(workdir: string, sources: seq<Config.Source>, env: Env): (r: Result<seq<Models.Policy>>)
    ensures r.Err? <==> exists i :: 0 <= i < |sources| && Unsupported(workdir, sources[i], env)
    ensures r.Ok? ==> forall i :: 0 <= i < |r.value| ==> r.value[i].isPolicybook && r.value[i].policybookData.Some?
  {
    var rs := Installs(workdir, sources, env);
    assert forall i :: 0 <= i < |rs| ==> (rs[i].Err? <==> Unsupported(workdir, sources[i], env));
    ConcatErr(rs);
    ConcatPolicybooks(rs);
    Concat(rs)
  }

  /** Each source's contribution, in source order. */
  function Installs(workdir: string, sources: seq<Config.Source>, env: Env): (rs: seq<Result<seq<Models.Policy>>>)
    ensures |rs| == |sources|
    ensures forall i :: 0 <= i < |sources| ==> rs[i] == InstallOne(workdir, sources[i], env)
  {
    seq(|sources|, i requires 0 <= i < |sources| => InstallOne(workdir, sources[i], env))
  }

  lemma InstallsAppend(workdir: string, xs: seq<Config.Source>, ys: seq<Config.Source>, env: Env)
    ensures Installs(workdir, xs + ys, env) == Installs(workdir, xs, env) + Installs(workdir, ys, env)
  {
    var rz := Installs(workdir, xs + ys, env);
    var rxy := Installs(workdir, xs, env) + Installs(workdir, ys, env);
    forall i | 0 <= i < |rz|
      ensures rz[i] == rxy[i]
    {
      if i < |xs| {
        assert (xs + ys)[i] == xs[i];
      } else {
        assert (xs + ys)[i] == ys[i - |xs|];
      }
    }
  }

  /** The results of a loop over sources, concatenated; the first error
    * stops it. */
  function Concat(rs: seq<Result<seq<Models.Policy>>>): (r: Result<seq<Models.Policy>>)
    decreases |rs|
  {
    if |rs| == 0 then Ok([])
    else
      match Concat(rs[..|rs| - 1])
      case Err(e) => Err(e)
      case Ok(ps) =>
        match rs[|rs| - 1]
        case Err(e) => Err(e)
        case Ok(more) => Ok(ps + more)
  }

  lemma {:induction false} ConcatErr(rs: seq<Result<seq<Models.Policy>>>)
    ensures Concat(rs).Err? <==> exists i :: 0 <= i < |rs| && rs[i].Err?
    decreases |rs|
  {
    if |rs| > 0 {
      var init := rs[..|rs| - 1];
      ConcatErr(init);
      assert forall i :: 0 <= i < |init| ==> init[i] == rs[i];
    }
  }

  lemma {:induction false} ConcatPolicybooks(rs: seq<Result<seq<Models.Policy>>>)
    requires forall i :: 0 <= i < |rs| && rs[i].Ok? ==>
      forall j :: 0 <= j < |rs[i].value| ==> rs[i].value[j].isPolicybook && rs[i].value[j].policybookData.Some?
    ensures Concat(rs).Ok? ==>
      forall j :: 0 <= j < |Concat(rs).value| ==> Concat(rs).value[j].isPolicybook && Concat(rs).value[j].policybookData.Some?
    decreases |rs|
  {
    if |rs| > 0 {
      var init := rs[..|rs| - 1];
      assert forall i :: 0 <= i < |init| ==> init[i] == rs[i];
      ConcatPolicybooks(init);
    }
  }

  /** Concatenating two loops' results is the loop over both. */
  lemma {:induction false} ConcatAppend(xs: seq<Result<seq<Models.Policy>>>, ys: seq<Result<seq<Models.Policy>>>)
    requires Concat(xs).Ok? && Concat(ys).Ok?
    ensures Concat(xs + ys) == Ok(Concat(xs).value + Concat(ys).value)
    decreases |ys|
  {
    var a := Concat(xs).value;
    if |ys| == 0 {
      assert xs + ys == xs;
      assert a + [] == a;
    } else {
      var zs := xs + ys;
      var init := ys[..|ys| - 1];
      assert zs[..|zs| - 1] == xs + init;
      assert zs[|zs| - 1] == ys[|ys| - 1];
      ConcatAppend(xs, init);
      var b := Concat(init).value;
      var c := ys[|ys| - 1].value;
      assert a + b + c == a + (b + c);
    }
  }

  /** Installing two lists of sources one after the other gives the two
    * results concatenated. */
  lemma InstallAllAppend(workdir: string, xs: seq<Config.Source>, ys: seq<Config.Source>, env: Env)
    requires InstallAll(workdir, xs, env).Ok? && InstallAll(workdir, ys, env).Ok?
    ensures InstallAll(workdir, xs + ys, env) == Ok(InstallAll(workdir, xs, env).value + InstallAll(workdir, ys, env).value)
  {
    InstallsAppend(workdir, xs, ys, env);
    ConcatAppend(Installs(workdir, xs, env), Installs(workdir, ys, env));
  }

  /** PolicyLoader.setup_and_install. With a configuration file (its lines
    * given as `configLines`) its patterns and sources replace the loader's;
    * otherwise a policy path appends the pattern "policy" (enabled) and a
    * "path" source for it. Then every source is installed. */
  function SetupAndInstall(l: Loader, policyPath: string, configLines: Option<seq<string>>, env: Env)
    : (r: Result<(Loader, seq<Models.Policy>)>)
    ensures configLines.None? && policyPath != "" && r.Ok? ==>
      r.value.0.patterns == l.patterns + [Config.PolicyPattern("policy", None, true)]
      && r.value.0.sources == l.sources + [Config.Source("policy", policyPath, "path")]
    ensures configLines.None? && policyPath == "" ==> r == (match InstallAll(l.workdir, l.sources, env)
      case Err(e) => Err(e) case Ok(ps) => Ok((l, ps)))
    ensures r.Ok? ==> r.value.0.workdir == l.workdir && InstallAll(l.workdir, r.value.0.sources, env) == Ok(r.value.1)
  {
    var l' :-
      match configLines
      case Some(lines) =>
        (match Config.LoadConfig(lines)
         case Err(e) => Err(e)
         case Ok(cfg) => Ok(l.(patterns := cfg.policy, sources := cfg.sources)))
      case None =>
        if policyPath != "" then
          Ok(l.(patterns := l.patterns + [Config.PolicyPattern("policy", None, true)],
                sources := l.sources + [Config.Source("policy", policyPath, "path")]))
        else Ok(l);
    var ps :- InstallAll(l'.workdir, l'.sources, env);
    Ok((l', ps))
  }

  /** A policy path adds a "path" source after the existing ones, so what
    * was installed before comes first, then the policies under the path. */
  lemma PolicyPathInstallsLast(l: Loader, policyPath: string, env: Env)
    requires policyPath != ""
    requires InstallAll(l.workdir, l.sources, env).Ok?
    ensures SetupAndInstall(l, policyPath, None, env).Ok?
    ensures SetupAndInstall(l, policyPath, None, env).value.1
      == InstallAll(l.workdir, l.sources, env).value
         + InstallOne(l.workdir, Config.Source("policy", policyPath, "path"), env).value
  {
    var s := Config.Source("policy", policyPath, "path");
    InstallAllSingle(l.workdir, s, env);
    InstallAllAppend(l.workdir, l.sources, [s], env);
  }

  lemma InstallAllSingle(workdir: string, s: Config.Source, env: Env)
    requires InstallOne(workdir, s, env).Ok?
    ensures InstallAll(workdir, [s], env) == InstallOne(workdir, s, env)
  {
    var rs := seq(1, i requires 0 <= i < 1 => InstallOne(workdir, [s][i], env));
    assert rs == [InstallOne(workdir, s, env)];
    SingleConcat(InstallOne(workdir, s, env));
  }

  lemma SingleConcat(r: Result<seq<Models.Policy>>)
    requires r.Ok?
    ensures Concat([r]) == r
  {
    assert [r][..0] == [];
    assert [] + r.value == r.value;
  }

  /** PolicyLoader.run. `exists` tells whether a path exists and
    * `transpile` is the loader's transpiler, if it has one: every installed
    * policybook is replaced by the transpiler's policies, other policies are
    * kept, in order. */
  function Run(
    l: Loader, policyPath: string, env: Env, pathExists: string -> bool,
    transpile: Option<Policybook.PolicySetAst -> Result<seq<Models.Policy>>>)
    : (r: Result<(Loader, seq<Models.Policy>)>)
    ensures !pathExists(policyPath) ==> r == Err(OSError("file not found: " + policyPath))
    ensures r.Ok? && policyPath != "" ==>
      r.value.0.sources == l.sources + [Config.Source("policy", policyPath, "path")]
  {
    if !pathExists(policyPath) then Err(OSError("file not found: " + policyPath))
    else if policyPath == "" then Ok((l, []))
    else
      var (l', loaded) :- SetupAndInstall(l, policyPath, None, env);
      var ps :- ReplacePolicybooks(loaded, transpile);
      Ok((l', ps))
  }

  /** The loop of run: a policybook becomes the transpiler's output, any
    * other policy is kept. Without a transpiler a policybook fails with
    * AttributeError, as calling `run` on None does. */
  function ReplacePolicybooks(
    ps: seq<Models.Policy>, transpile: Option<Policybook.PolicySetAst -> Result<seq<Models.Policy>>>)
    : (r: Result<seq<Models.Policy>>)
    ensures (forall i :: 0 <= i < |ps| ==> !ps[i].isPolicybook) ==> r == Ok(ps)
    ensures transpile.None? && (exists i :: 0 <= i < |ps| && ps[i].isPolicybook) ==> r.Err?
    decreases |ps|
  {
    if |ps| == 0 then Ok([])
    else
      var init := ps[..|ps| - 1];
      var p := ps[|ps| - 1];
      assert forall i :: 0 <= i < |init| ==> init[i] == ps[i];
      var done :- ReplacePolicybooks(init, transpile);
      if !p.isPolicybook then
        assert init + [p] == ps;
        Ok(done + [p])
      else
        match transpile
        case None => Err(AttributeError("'NoneType' object has no attribute 'run'"))
        case Some(t) =>
          var more :- t(p.policybookData.GetOr(Policybook.PolicySetAst(None, [], [])));
          Ok(done + more)
  }

  // ---------------------------------------------------------------------
  // Choosing the enabled policy files
  // ---------------------------------------------------------------------

  /** The patterns in `ps` whose name has length n, in order. */
  function OfLength(ps: seq<Config.PolicyPattern>, n: nat): (r: seq<Config.PolicyPattern>)
    ensures forall i :: 0 <= i < |r| ==> |r[i].name| == n && r[i] in ps
  {
    if |ps| == 0 then []
    else (if |ps[0].name| == n then [ps[0]] else []) + OfLength(ps[1..], n)
  }

  lemma {:induction false} OfLengthAppend(a: seq<Config.PolicyPattern>, b: seq<Config.PolicyPattern>, n: nat)
    ensures OfLength(a + b, n) == OfLength(a, n) + OfLength(b, n)
    decreases |a|
  {
    if |a| == 0 {
      assert a + b == b;
    } else {
      Seqs.ConsAppend(a, b);
      OfLengthAppend(a[1..], b, n);
      var h := if |a[0].name| == n then [a[0]] else [];
      assert OfLength(a + b, n) == h + OfLength(a[1..] + b, n);
      assert OfLength(a, n) == h + OfLength(a[1..], n);
      assert h + (OfLength(a[1..], n) + OfLength(b, n)) == (h + OfLength(a[1..], n)) + OfLength(b, n);
    }
  }

  /** A pattern is in a list exactly when it is among those of its length. */
  lemma {:induction false} InOfLength(ps: seq<Config.PolicyPattern>, p: Config.PolicyPattern)
    ensures p in ps <==> p in OfLength(ps, |p.name|)
    decreases |ps|
  {
    if |ps| > 0 {
      InOfLength(ps[1..], p);
      var h := if |ps[0].name| == |p.name| then [ps[0]] else [];
      assert OfLength(ps, |p.name|) == h + OfLength(ps[1..], |p.name|);
      assert p in ps <==> p == ps[0] || p in ps[1..];
      assert p in h <==> p == ps[0];
    }
  }

  predicate SortedByNameLength(ps: seq<Config.PolicyPattern>)
  {
    forall i, j :: 0 <= i < j < |ps| ==> |ps[i].name| <= |ps[j].name|
  }

  /** sorted(patterns, key=lambda x: len(x.name)): in ascending name length,
    * and, the sort being stable, patterns of one length keep their order. */
  function SortByNameLength(ps: seq<Config.PolicyPattern>): (r: seq<Config.PolicyPattern>)
    ensures |r| == |ps|
    ensures SortedByNameLength(r)
    ensures forall n: nat :: OfLength(r, n) == OfLength(ps, n)
    decreases |ps|
  {
    if |ps| == 0 then []
    else
      var init := ps[..|ps| - 1];
      var last := ps[|ps| - 1];
      var r := Insert(last, SortByNameLength(init));
      assert init + [last] == ps;
      forall n: nat
        ensures OfLength(r, n) == OfLength(ps, n)
      {
        OfLengthAppend(init, [last], n);
      }
      r
  }

  /** Places x after every pattern whose name is not longer. */
  function Insert(x: Config.PolicyPattern, s: seq<Config.PolicyPattern>): (r: seq<Config.PolicyPattern>)
    requires SortedByNameLength(s)
    ensures |r| == |s| + 1
    ensures SortedByNameLength(r)
    ensures forall n: nat :: OfLength(r, n) == OfLength(s, n) + (if |x.name| == n then [x] else [])
    ensures forall y :: y in r ==> y == x || y in s
    decreases |s|
  {
    if |s| == 0 then
      [x]
    else if |s[0].name| > |x.name| then
      InsertFront(x, s);
      assert forall y :: y in [x] + s ==> y == x || y in s;
      [x] + s
    else
      var t := Insert(x, s[1..]);
      InsertLater(x, s, t);
      [s[0]] + t
  }

  /** x goes in front of a sorted list whose first name is longer. */
  lemma InsertFront(x: Config.PolicyPattern, s: seq<Config.PolicyPattern>)
    requires SortedByNameLength(s) && |s| > 0 && |s[0].name| > |x.name|
    ensures SortedByNameLength([x] + s)
    ensures forall n: nat :: OfLength([x] + s, n) == OfLength(s, n) + (if |x.name| == n then [x] else [])
  {
    var r := [x] + s;
    forall n: nat
      ensures OfLength(r, n) == OfLength(s, n) + (if |x.name| == n then [x] else [])
    {
      assert r[1..] == s;
      if |x.name| == n {
        NoneOfLength(s, n);
      }
    }
  }

  /** x goes after the first pattern when that one's name is not longer. */
  lemma InsertLater(x: Config.PolicyPattern, s: seq<Config.PolicyPattern>, t: seq<Config.PolicyPattern>)
    requires |s| > 0 && SortedByNameLength(s) && |s[0].name| <= |x.name|
    requires SortedByNameLength(t)
    requires forall n: nat :: OfLength(t, n) == OfLength(s[1..], n) + (if |x.name| == n then [x] else [])
    requires forall y :: y in t ==> y == x || y in s[1..]
    ensures SortedByNameLength([s[0]] + t)
    ensures forall n: nat :: OfLength([s[0]] + t, n) == OfLength(s, n) + (if |x.name| == n then [x] else [])
    ensures forall y :: y in [s[0]] + t ==> y == x || y in s
  {
    InsertLaterSorted(x, s, t);
    InsertLaterLengths(x, s, t);
  }

  lemma InsertLaterSorted(x: Config.PolicyPattern, s: seq<Config.PolicyPattern>, t: seq<Config.PolicyPattern>)
    requires |s| > 0 && SortedByNameLength(s) && |s[0].name| <= |x.name|
    requires SortedByNameLength(t)
    requires forall y :: y in t ==> y == x || y in s[1..]
    ensures SortedByNameLength([s[0]] + t)
  {
    var r := [s[0]] + t;
    forall i, j | 0 <= i < j < |r|
      ensures |r[i].name| <= |r[j].name|
    {
      if i == 0 {
        assert r[j] == t[j - 1] && t[j - 1] in t;
        if r[j] != x {
          var k :| 0 <= k < |s[1..]| && s[1..][k] == r[j];
          assert s[k + 1] == r[j];
        }
      } else {
        assert r[i] == t[i - 1] && r[j] == t[j - 1];
      }
    }
  }

  lemma InsertLaterLengths(x: Config.PolicyPattern, s: seq<Config.PolicyPattern>, t: seq<Config.PolicyPattern>)
    requires |s| > 0
    requires forall n: nat :: OfLength(t, n) == OfLength(s[1..], n) + (if |x.name| == n then [x] else [])
    requires forall y :: y in t ==> y == x || y in s[1..]
    ensures forall n: nat :: OfLength([s[0]] + t, n) == OfLength(s, n) + (if |x.name| == n then [x] else [])
    ensures forall y :: y in [s[0]] + t ==> y == x || y in s
  {
    forall n: nat
      ensures OfLength([s[0]] + t, n) == OfLength(s, n) + (if |x.name| == n then [x] else [])
    {
      InsertLaterLength(x, s, t, n);
    }
    forall y | y in [s[0]] + t
      ensures y == x || y in s
    {
      if y != s[0] {
        assert y in t;
        assert y in s[1..] ==> y in s;
      }
    }
  }

  /** The patterns of one length, with s[0] put back in front. */
  lemma InsertLaterLength(x: Config.PolicyPattern, s: seq<Config.PolicyPattern>, t: seq<Config.PolicyPattern>, n: nat)
    requires |s| > 0
    requires OfLength(t, n) == OfLength(s[1..], n) + (if |x.name| == n then [x] else [])
    ensures OfLength([s[0]] + t, n) == OfLength(s, n) + (if |x.name| == n then [x] else [])
  {
    var r := [s[0]] + t;
    assert r[1..] == t;
    var h := if |s[0].name| == n then [s[0]] else [];
    var e := if |x.name| == n then [x] else [];
    assert OfLength(r, n) == h + OfLength(t, n);
    assert OfLength(s, n) == h + OfLength(s[1..], n);
    assert h + (OfLength(s[1..], n) + e) == (h + OfLength(s[1..], n)) + e;
  }

  /** In a sorted list whose first name is longer than n, no name has
    * length n. */
  lemma {:induction false} NoneOfLength(s: seq<Config.PolicyPattern>, n: nat)
    requires SortedByNameLength(s) && |s| > 0 && |s[0].name| > n
    ensures OfLength(s, n) == []
    decreases |s|
  {
    if |s| > 1 {
      NoneOfLength(s[1..], n);
    }
  }

  /** Where a policy file lives, and how its tags are read. */
  datatype Ctx = Ctx(root: string, relpath: (string, string) -> string, fileTags: string -> seq<string>)

  function Verdict(p: Config.PolicyPattern, f: string, ctx: Ctx): Option<bool>
  {
    Config.CheckEnabled(p, f, ctx.root, ctx.relpath, ctx.fileTags)
  }

  /** The inner loop for one file: each pattern with a verdict sets the
    * file's entry. */
  function ApplyPatterns(d: PyDict.Dict<string, bool>, f: string, ps: seq<Config.PolicyPattern>, ctx: Ctx)
    : PyDict.Dict<string, bool>
    decreases |ps|
  {
    if |ps| == 0 then d
    else
      var d' := ApplyPatterns(d, f, ps[..|ps| - 1], ctx);
      match Verdict(ps[|ps| - 1], f, ctx)
      case None => d'
      case Some(v) => PyDict.Put(d', f, v)
  }

  /** The outer loop over the found files. */
  function ApplyFiles(d: PyDict.Dict<string, bool>, files: seq<string>, ps: seq<Config.PolicyPattern>, ctx: Ctx)
    : PyDict.Dict<string, bool>
    decreases |files|
  {
    if |files| == 0 then d
    else ApplyPatterns(ApplyFiles(d, files[..|files| - 1], ps, ctx), files[|files| - 1], ps, ctx)
  }

  /** The verdict a file ends with: the last pattern that has one decides. */
  function FinalVerdict(f: string, ps: seq<Config.PolicyPattern>, ctx: Ctx): (r: Option<bool>)
    ensures r.None? <==> forall i :: 0 <= i < |ps| ==> Verdict(ps[i], f, ctx).None?
    ensures r.Some? ==> exists i :: (0 <= i < |ps| && Verdict(ps[i], f, ctx) == r
      && forall j :: i < j < |ps| ==> Verdict(ps[j], f, ctx).None?)
    decreases |ps|
  {
    if |ps| == 0 then None
    else
      var init := ps[..|ps| - 1];
      assert forall i :: 0 <= i < |init| ==> init[i] == ps[i];
      match Verdict(ps[|ps| - 1], f, ctx)
      case Some(v) => Some(v)
      case None => FinalVerdict(f, init, ctx)
  }

  lemma {:induction false} ApplyPatternsGet(
    d: PyDict.Dict<string, bool>, f: string, ps: seq<Config.PolicyPattern>, ctx: Ctx, k: string)
    ensures PyDict.Get(ApplyPatterns(d, f, ps, ctx), k)
      == if k == f && FinalVerdict(f, ps, ctx).Some? then FinalVerdict(f, ps, ctx) else PyDict.Get(d, k)
    ensures PyDict.UniqueKeys(d) ==> PyDict.UniqueKeys(ApplyPatterns(d, f, ps, ctx))
    decreases |ps|
  {
    if |ps| > 0 {
      var init := ps[..|ps| - 1];
      ApplyPatternsGet(d, f, init, ctx, k);
      var d' := ApplyPatterns(d, f, init, ctx);
      match Verdict(ps[|ps| - 1], f, ctx)
      case None =>
      case Some(v) =>
        PyDict.GetPut(d', f, v, k);
        if PyDict.UniqueKeys(d) {
          PyDict.PutUnique(d', f, v);
        }
    }
  }

  lemma {:induction false} ApplyFilesGet(
    files: seq<string>, ps: seq<Config.PolicyPattern>, ctx: Ctx, k: string)
    ensures PyDict.Get(ApplyFiles([], files, ps, ctx), k)
      == if k in files then FinalVerdict(k, ps, ctx) else None
    ensures PyDict.UniqueKeys(ApplyFiles([], files, ps, ctx))
    decreases |files|
  {
    if |files| > 0 {
      var init := files[..|files| - 1];
      var f := files[|files| - 1];
      ApplyFilesGet(init, ps, ctx, k);
      ApplyPatternsGet(ApplyFiles([], init, ps, ctx), f, ps, ctx, k);
      assert files == init + [f];
    }
  }

  /** The inner loop adds the file as a new key exactly when it was not a
    * key and some pattern has a verdict for it. */
  lemma {:induction false} ApplyPatternsKeys(
    d: PyDict.Dict<string, bool>, f: string, ps: seq<Config.PolicyPattern>, ctx: Ctx)
    ensures PyDict.Keys(ApplyPatterns(d, f, ps, ctx)) ==
      if f !in PyDict.Keys(d) && FinalVerdict(f, ps, ctx).Some? then PyDict.Keys(d) + [f] else PyDict.Keys(d)
    decreases |ps|
  {
    if |ps| > 0 {
      var init := ps[..|ps| - 1];
      ApplyPatternsKeys(d, f, init, ctx);
      var d' := ApplyPatterns(d, f, init, ctx);
      match Verdict(ps[|ps| - 1], f, ctx)
      case None =>
      case Some(v) =>
        PyDict.PutKeys(d', f, v);
    }
  }

  /** The dict lists the found files that have a verdict in the order they
    * were first found. */
  lemma {:induction false} ApplyFilesKeysOrder(files: seq<string>, ps: seq<Config.PolicyPattern>, ctx: Ctx)
    ensures Seqs.InFirstSeenOrder(PyDict.Keys(ApplyFiles([], files, ps, ctx)), files)
    decreases |files|
  {
    if |files| > 0 {
      var init := files[..|files| - 1];
      var f := files[|files| - 1];
      assert files == init + [f];
      ApplyFilesKeysOrder(init, ps, ctx);
      var d := ApplyFiles([], init, ps, ctx);
      var ks := PyDict.Keys(d);
      ApplyPatternsKeys(d, f, ps, ctx);
      Seqs.InFirstSeenOrderSnoc(ks, init, f);
      if PyDict.Keys(ApplyFiles([], files, ps, ctx)) != ks {
        assert f !in init by {
          if f in init {
            ApplyFilesGet(init, ps, ctx, f);
          }
        }
        Seqs.InFirstSeenOrderSnocNew(ks, init, f);
      }
    }
  }

  /** Keeping the keys whose value is True keeps their order. */
  lemma {:induction false} EnabledKeysOrder(d: PyDict.Dict<string, bool>, xs: seq<string>)
    requires Seqs.InFirstSeenOrder(PyDict.Keys(d), xs)
    ensures Seqs.InFirstSeenOrder(EnabledKeys(d), xs)
    decreases |d|
  {
    if |d| > 0 {
      var rest := d[1..];
      var ks := PyDict.Keys(d);
      assert PyDict.Keys(rest) == ks[1..];
      EnabledKeysOrder(rest, xs);
      var er := EnabledKeys(rest);
      assert ks[0] == d[0].0 && ks[0] in xs;
      if d[0].1 {
        assert EnabledKeys(d) == [d[0].0] + er;
        forall i | 0 <= i < |er|
          ensures Seqs.IndexOf(xs, d[0].0) < Seqs.IndexOf(xs, er[i])
        {
          EnabledKeyLater(d, xs, er[i]);
        }
        Seqs.InFirstSeenOrderCons(d[0].0, er, xs);
      } else {
        assert EnabledKeys(d) == er;
      }
    }
  }

  /** A key enabled after the first entry comes later in xs than the first
    * entry's key. */
  lemma EnabledKeyLater(d: PyDict.Dict<string, bool>, xs: seq<string>, k: string)
    requires |d| > 0 && Seqs.InFirstSeenOrder(PyDict.Keys(d), xs)
    requires k in EnabledKeys(d[1..])
    ensures d[0].0 in xs && k in xs && Seqs.IndexOf(xs, d[0].0) < Seqs.IndexOf(xs, k)
  {
    var ks := PyDict.Keys(d);
    var m :| 0 <= m < |d[1..]| && d[1..][m] == (k, true);
    assert ks[0] == d[0].0 && ks[m + 1] == k;
  }

  /** The keys whose value is True, in dict order. */
  function EnabledKeys(d: PyDict.Dict<string, bool>): (r: seq<string>)
    ensures forall k :: k in r <==> exists i :: 0 <= i < |d| && d[i] == (k, true)
    ensures PyDict.UniqueKeys(d) ==> Seqs.NoDup(r)
    decreases |d|
  {
    if |d| == 0 then []
    else
      var rest := EnabledKeys(d[1..]);
      var r := (if d[0].1 then [d[0].0] else []) + rest;
      assert forall k :: ((exists i :: 0 <= i < |d[1..]| && d[1..][i] == (k, true))
        <==> (exists i :: 1 <= i < |d| && d[i] == (k, true))) by {
        forall k | exists i :: 1 <= i < |d| && d[i] == (k, true)
          ensures exists i :: 0 <= i < |d[1..]| && d[1..][i] == (k, true)
        {
          var i :| 1 <= i < |d| && d[i] == (k, true);
          assert d[1..][i - 1] == d[i];
        }
      }
      assert PyDict.UniqueKeys(d) ==> Seqs.NoDup(r) by {
        if PyDict.UniqueKeys(d) {
          TailUnique(d);
          if d[0].1 {
            forall i | 0 <= i < |rest|
              ensures rest[i] != d[0].0
            {
              var m :| 0 <= m < |d[1..]| && d[1..][m] == (rest[i], true);
              assert d[m + 1].0 == rest[i];
            }
          }
        }
      }
      r
  }

  /** PolicyLoader.list_enabled_policies over the files the two globs found:
    * the patterns are applied from the shortest name to the longest and the
    * last verdict stands; a file is listed, once, when that verdict is
    * True. */
  function ListEnabledPolicies(
    found1: seq<string>, found2: seq<string>, patterns: seq<Config.PolicyPattern>, ctx: Ctx)
    : (r: seq<string>)
    ensures Seqs.NoDup(r)
    ensures forall f :: f in r <==>
      (f in found1 || f in found2) && FinalVerdict(f, SortByNameLength(patterns), ctx) == Some(true)
    ensures Seqs.InFirstSeenOrder(r, found1 + found2)
  {
    var files := found1 + found2;
    var sorted := SortByNameLength(patterns);
    var d := ApplyFiles([], files, sorted, ctx);
    ApplyFilesGet(files, sorted, ctx, "");
    forall f
      ensures (exists i :: 0 <= i < |d| && d[i] == (f, true))
        <==> (f in found1 || f in found2) && FinalVerdict(f, sorted, ctx) == Some(true)
    {
      ApplyFilesGet(files, sorted, ctx, f);
      UniqueGet(d, f);
    }
    ApplyFilesKeysOrder(files, sorted, ctx);
    EnabledKeysOrder(d, files);
    EnabledKeys(d)
  }

  /** With unique keys, an entry is what get finds. */
  lemma UniqueGet(d: PyDict.Dict<string, bool>, k: string)
    requires PyDict.UniqueKeys(d)
    ensures (exists i :: 0 <= i < |d| && d[i] == (k, true)) <==> PyDict.Get(d, k) == Some(true)
  {
    if exists i :: 0 <= i < |d| && d[i] == (k, true) {
      var i :| 0 <= i < |d| && d[i] == (k, true);
      UniqueGetAt(d, k, i);
    }
  }

  lemma {:induction false} UniqueGetAt(d: PyDict.Dict<string, bool>, k: string, i: nat)
    requires PyDict.UniqueKeys(d) && i < |d| && d[i].0 == k
    ensures PyDict.Get(d, k) == Some(d[i].1)
    decreases i
  {
    if i > 0 {
      assert d[0].0 != k;
      TailUnique(d);
      UniqueGetAt(d[1..], k, i - 1);
    }
  }

  lemma TailUnique<V>(d: PyDict.Dict<string, V>)
    requires |d| > 0 && PyDict.UniqueKeys(d)
    ensures PyDict.UniqueKeys(d[1..])
  {
    forall a, b | 0 <= a < b < |d[1..]|
      ensures d[1..][a].0 != d[1..][b].0
    {
      assert d[1..][a] == d[a + 1] && d[1..][b] == d[b + 1];
    }
  }

  /** The longest name wins: the verdict that stands for a file comes from a
    * configured pattern, and no pattern with a verdict for that file has a
    * longer name. */
  lemma LongestPatternWins(f: string, patterns: seq<Config.PolicyPattern>, ctx: Ctx)
    requires FinalVerdict(f, SortByNameLength(patterns), ctx).Some?
    ensures exists p :: (p in patterns && Verdict(p, f, ctx) == FinalVerdict(f, SortByNameLength(patterns), ctx)
      && forall q :: q in patterns && Verdict(q, f, ctx).Some? ==> |q.name| <= |p.name|)
  {
    var sorted := SortByNameLength(patterns);
    var v := FinalVerdict(f, sorted, ctx);
    var i :| 0 <= i < |sorted| && Verdict(sorted[i], f, ctx) == v
      && forall j :: i < j < |sorted| ==> Verdict(sorted[j], f, ctx).None?;
    var p := sorted[i];
    SortedSameMembers(patterns, p);
    forall q | q in patterns && Verdict(q, f, ctx).Some?
      ensures |q.name| <= |p.name|
    {
      SortedSameMembers(patterns, q);
      NoLongerAfterLast(sorted, i, f, ctx, q);
    }
  }

  /** Sorting keeps exactly the patterns it was given. */
  lemma SortedSameMembers(patterns: seq<Config.PolicyPattern>, p: Config.PolicyPattern)
    ensures p in patterns <==> p in SortByNameLength(patterns)
  {
    InOfLength(SortByNameLength(patterns), p);
    InOfLength(patterns, p);
  }

  /** In a sorted list, a pattern with a verdict is no longer than the last
    * one that has a verdict. */
  lemma NoLongerAfterLast(sorted: seq<Config.PolicyPattern>, i: nat, f: string, ctx: Ctx, q: Config.PolicyPattern)
    requires SortedByNameLength(sorted) && i < |sorted|
    requires forall j :: i < j < |sorted| ==> Verdict(sorted[j], f, ctx).None?
    requires q in sorted && Verdict(q, f, ctx).Some?
    ensures |q.name| <= |sorted[i].name|
  {
    var j :| 0 <= j < |sorted| && sorted[j] == q;
    if j > i {
      assert false;
    }
  }

  /** With "default disabled" and "roleA enabled" configured, in either
    * order, the files of the source roleA are enabled and all others
    * disabled. */
  lemma DefaultDisabledRoleEnabled(f: string, ctx: Ctx, starFirst: bool)
    ensures var star := Config.PolicyPattern("*", None, false);
      var role := Config.PolicyPattern("roleA", None, true);
      var patterns := if starFirst then [star, role] else [role, star];
      FinalVerdict(f, SortByNameLength(patterns), ctx)
        == Some(Config.SourceName(ctx.relpath(f, ctx.root)) == "roleA")
  {
    var star := Config.PolicyPattern("*", None, false);
    var role := Config.PolicyPattern("roleA", None, true);
    StarRoleSorted(star, role);
    StarRoleVerdict(f, ctx, star, role);
  }

  /** Sorting puts the one-letter wildcard before the role, in either order. */
  lemma StarRoleSorted(star: Config.PolicyPattern, role: Config.PolicyPattern)
    requires star == Config.PolicyPattern("*", None, false) && role == Config.PolicyPattern("roleA", None, true)
    ensures SortByNameLength([star, role]) == [star, role]
    ensures SortByNameLength([role, star]) == [star, role]
  {
    assert Insert(role, [star]) == [star, role];
    assert Insert(star, [role]) == [star, role];
    assert [star, role][..1] == [star];
    assert SortByNameLength([star]) == [star];
    assert [role, star][..1] == [role];
    assert SortByNameLength([role]) == [role];
  }

  /** The role's verdict, when it has one, overrides the wildcard's. */
  lemma StarRoleVerdict(f: string, ctx: Ctx, star: Config.PolicyPattern, role: Config.PolicyPattern)
    requires star == Config.PolicyPattern("*", None, false) && role == Config.PolicyPattern("roleA", None, true)
    ensures FinalVerdict(f, [star, role], ctx) == Some(Config.SourceName(ctx.relpath(f, ctx.root)) == "roleA")
  {
    var name := Config.SourceName(ctx.relpath(f, ctx.root));
    assert Verdict(star, f, ctx) == Some(false);
    assert Verdict(role, f, ctx) == if name == "roleA" then Some(true) else None;
    assert [star, role][..1] == [star];
  }
}
