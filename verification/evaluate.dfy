// PolicyEvaluator: every policy (a policybook replaced by its transpiled
// policies) evaluated on every target datum of its target type, the target
// data loaded once per type and kept, and the single results summarised
// once. The engine, the transpiler, the Ansible target loader and the
// summarizer are parameters; `D` is a target datum, `R` a single result,
// `O` the summary.

module Evaluate {
  import opened Wrappers
  import PyDict
  import Seqs
  import Models
  import Policybook

  /** An element of the list the policy loader returned: a Policy, or an
    * object of some other class. */
  datatype Item = PolicyItem(policy: Models.Policy) | OtherItem(className: string)

  /** The components of an evaluator. The engine may fail, as the engines
    * of this model do; the summarizer may be missing. `load` is the target
    * loader registry, by target type: None where no TargetLoader is
    * installed, otherwise the data that loader gives for the type. */
  datatype Evaluator<!D, !R, !O> = Evaluator(
    engine: (Models.Policy, D) -> Result<R>,
    transpiler: Option<Option<Policybook.PolicySetAst> -> Result<seq<Models.Policy>>>,
    summarizer: Option<seq<R> -> O>,
    load: string -> Option<seq<D>>)

  /** The registry PolicyEvaluator.__post_init__ installs: the Ansible
    * loader for play and task. Event and REST get objects that are not
    * TargetLoaders, which run treats as no loader. */
  function Registry<D>(ansibleLoad: string -> seq<D>): (load: string -> Option<seq<D>>)
    ensures load(Models.Play) == Some(ansibleLoad(Models.Play))
    ensures load(Models.Task) == Some(ansibleLoad(Models.Task))
    ensures load(Models.Event).None? && load(Models.Rest).None?
    ensures forall t :: load(t).Some? ==> t == Models.Play || t == Models.Task
  {
    t => if t == Models.Play || t == Models.Task then Some(ansibleLoad(t)) else None
  }

  /** PolicyEvaluator.__post_init__: an engine is required; the summarizer
    * is not checked. */
  function NewEvaluator<D, R, O>(
    engine: Option<(Models.Policy, D) -> Result<R>>,
    transpiler: Option<Option<Policybook.PolicySetAst> -> Result<seq<Models.Policy>>>,
    summarizer: Option<seq<R> -> O>,
    ansibleLoad: string -> seq<D>): (r: Result<Evaluator<D, R, O>>)
    ensures r.Err? <==> engine.None?
    ensures r.Err? ==> r.error.ValueError?
    ensures r.Ok? ==>
      r.value.engine == engine.value && r.value.transpiler == transpiler
      && r.value.summarizer == summarizer && r.value.load == Registry(ansibleLoad)
  {
    match engine
    case None => Err(ValueError("PolicyEvaluator requires a PolicyEngine to initialize"))
    case Some(e) => Ok(Evaluator(e, transpiler, summarizer, Registry(ansibleLoad)))
  }

  /** The data the registry gives for a type; none without a loader, so
    * that some data means there is a loader. */
  function Data<D, R, O>(ev: Evaluator<D, R, O>, t: string): seq<D>
  {
    match ev.load(t)
    case None => []
    case Some(data) => data
  }

  /** The error run raises for a type without a TargetLoader. */
  function NoLoader(t: string): Error
  {
    ValueError("failed to get target loader for type \"" + t + "\"")
  }

  /** The loop state: the target data cache (by target type), the target
    * types the loader was asked for, in order, and the results so far. */
  datatype State<!D, !R> = State(cache: PyDict.Dict<string, seq<D>>, loads: seq<string>, results: seq<R>)

  /** The cache holds exactly the types loaded, each once, with the data
    * the loader gives for it, which is never empty. */
  ghost predicate CacheInvariant<D, R, O>(ev: Evaluator<D, R, O>, st: State<D, R>)
  {
    PyDict.Keys(st.cache) == st.loads
    && PyDict.UniqueKeys(st.cache)
    && forall i :: 0 <= i < |st.cache| ==> ev.load(st.cache[i].0) == Some(st.cache[i].1) && |st.cache[i].1| > 0
  }

  /** The target data for one policy: from the cache, or from the type's
    * TargetLoader, kept in the cache only when there is some; a type with
    * no TargetLoader is a ValueError. */
  function TargetData<D, R, O>(ev: Evaluator<D, R, O>, st: State<D, R>, t: string): (r: Result<(seq<D>, State<D, R>)>)
  {
    match PyDict.Get(st.cache, t)
    case Some(data) => Ok((data, st))
    case None =>
      match ev.load(t)
      case None => Err(NoLoader(t))
      case Some(data) =>
        if |data| > 0 then Ok((data, st.(cache := PyDict.Put(st.cache, t, data), loads := st.loads + [t])))
        else Ok((data, st.(loads := st.loads + [t])))
  }

  /** With the cache invariant, getting the data fails exactly when the
    * type has no TargetLoader, with that ValueError; otherwise the data is
    * what the loader gives for the type, the loader is asked only for a
    * type not asked for before, and the invariant is kept when the data is
    * not empty. */
  lemma TargetDataSpec<D, R, O>(ev: Evaluator<D, R, O>, st: State<D, R>, t: string)
    requires CacheInvariant(ev, st)
    ensures TargetData(ev, st, t).Err? <==> ev.load(t).None?
    ensures TargetData(ev, st, t).Err? ==> TargetData(ev, st, t).error == NoLoader(t)
    ensures TargetData(ev, st, t).Ok? ==>
      var (data, st') := TargetData(ev, st, t).value;
      ev.load(t) == Some(data)
      && st'.results == st.results
      && st'.loads == (if t in st.loads then st.loads else st.loads + [t])
      && (|data| > 0 ==> CacheInvariant(ev, st'))
  {
    match PyDict.Get(st.cache, t)
    case Some(data) =>
      var i :| 0 <= i < |st.cache| && st.cache[i] == (t, data);
    case None =>
      if ev.load(t).Some? && |ev.load(t).value| > 0 {
        var data := ev.load(t).value;
        var c := PyDict.Put(st.cache, t, data);
        PyDict.PutKeys(st.cache, t, data);
        PyDict.PutUnique(st.cache, t, data);
        assert c == st.cache + [(t, data)] by {
          PutNew(st.cache, t, data);
        }
      }
  }

  /** Assigning a key not yet present appends it. */
  lemma {:induction false} PutNew<V>(d: PyDict.Dict<string, V>, k: string, v: V)
    requires k !in PyDict.Keys(d)
    ensures PyDict.Put(d, k, v) == d + [(k, v)]
    decreases |d|
  {
    if |d| > 0 {
      assert PyDict.Keys(d) == [d[0].0] + PyDict.Keys(d[1..]);
      PutNew(d[1..], k, v);
      assert [d[0]] + (d[1..] + [(k, v)]) == d + [(k, v)];
    }
  }

  /** Whether the engine succeeds on this policy and every datum. */
  predicate EngineAccepts<D, R, O>(ev: Evaluator<D, R, O>, p: Models.Policy, data: seq<D>)
  {
    forall i :: 0 <= i < |data| ==> ev.engine(p, data[i]).Ok?
  }

  /** The engine's value for each datum, in order. */
  function EngineOutputs<D, R, O>(ev: Evaluator<D, R, O>, p: Models.Policy, data: seq<D>): seq<R>
    requires EngineAccepts(ev, p, data)
  {
    seq(|data|, i requires 0 <= i < |data| => ev.engine(p, data[i]).value)
  }

  /** The engine applied to one policy and each datum, in order; an engine
    * call that raises aborts the loop with its error. */
  function EvalAll<D, R, O>(ev: Evaluator<D, R, O>, p: Models.Policy, data: seq<D>): (r: Result<seq<R>>)
    ensures r.Ok? <==> EngineAccepts(ev, p, data)
    ensures r.Ok? ==> |r.value| == |data| && forall i :: 0 <= i < |data| ==> ev.engine(p, data[i]) == Ok(r.value[i])
    ensures r.Err? ==> exists i :: (0 <= i < |data| && ev.engine(p, data[i]) == Err(r.error)
      && forall j :: 0 <= j < i ==> ev.engine(p, data[j]).Ok?)
  {
    var f := d => ev.engine(p, d);
    Seqs.MapResultSpec(data, f);
    var r := Seqs.MapResult(data, f);
    if r.Err? then Seqs.MapResultError(data, f); r else r
  }

  /** A successful loop gives the engine's values. */
  lemma EvalAllOutputs<D, R, O>(ev: Evaluator<D, R, O>, p: Models.Policy, data: seq<D>)
    requires EngineAccepts(ev, p, data)
    ensures EvalAll(ev, p, data) == Ok(EngineOutputs(ev, p, data))
  {
    var r := EvalAll(ev, p, data);
    var outs := EngineOutputs(ev, p, data);
    assert |outs| == |data| == |r.value|;
    forall i | 0 <= i < |data|
      ensures r.value[i] == outs[i]
    {
      assert ev.engine(p, data[i]) == Ok(r.value[i]);
    }
    assert r.value == outs;
  }

  /** The innermost steps for one actual policy. */
  function EvalPolicy<D, R, O>(ev: Evaluator<D, R, O>, st: State<D, R>, p: Models.Policy): (r: Result<State<D, R>>)
    ensures p.metadata.target !in Models.TargetTypes ==>
      r == Err(ValueError("target type \"" + p.metadata.target + "\" is not supported"))
  {
    var t := p.metadata.target;
    if t !in Models.TargetTypes then Err(ValueError("target type \"" + t + "\" is not supported"))
    else
      var (data, st') :- TargetData(ev, st, t);
      if |data| == 0 then Err(ValueError("No target data found for \"" + t + "\""))
      else
        var rs :- EvalAll(ev, p, data);
        Ok(st'.(results := st'.results + rs))
  }

  function EvalPolicies<D, R, O>(ev: Evaluator<D, R, O>, st: State<D, R>, ps: seq<Models.Policy>): Result<State<D, R>>
    decreases |ps|
  {
    if |ps| == 0 then Ok(st)
    else
      match EvalPolicy(ev, st, ps[0])
      case Err(e) => Err(e)
      case Ok(st') => EvalPolicies(ev, st', ps[1..])
  }

  /** A policy the evaluation can go through: a supported target type with
    * a TargetLoader that gives some target data, on each of which the
    * engine succeeds. */
  predicate Evaluable<D, R, O>(ev: Evaluator<D, R, O>, p: Models.Policy)
  {
    p.metadata.target in Models.TargetTypes && |Data(ev, p.metadata.target)| > 0
    && EngineAccepts(ev, p, Data(ev, p.metadata.target))
  }

  predicate AllEvaluable<D, R, O>(ev: Evaluator<D, R, O>, ps: seq<Models.Policy>)
  {
    forall i :: 0 <= i < |ps| ==> Evaluable(ev, ps[i])
  }

  /** Independent statement of the results: for each policy in order, the
    * engine's value on each datum of its target type in order. (A policy
    * that cannot be evaluated contributes nothing; the statements below use
    * Expected only where every policy can be.) */
  function Expected<D, R, O>(ev: Evaluator<D, R, O>, ps: seq<Models.Policy>): seq<R>
    decreases |ps|
  {
    if |ps| == 0 then []
    else
      (if Evaluable(ev, ps[0]) then EngineOutputs(ev, ps[0], Data(ev, ps[0].metadata.target)) else [])
      + Expected(ev, ps[1..])
  }

  lemma AllEvaluableAppend<D, R, O>(ev: Evaluator<D, R, O>, xs: seq<Models.Policy>, ys: seq<Models.Policy>)
    ensures AllEvaluable(ev, xs + ys) <==> AllEvaluable(ev, xs) && AllEvaluable(ev, ys)
  {
    assert forall i :: 0 <= i < |xs| ==> (xs + ys)[i] == xs[i];
    assert forall i :: 0 <= i < |ys| ==> (xs + ys)[|xs| + i] == ys[i];
    if AllEvaluable(ev, xs) && AllEvaluable(ev, ys) {
      forall i | 0 <= i < |xs + ys|
        ensures Evaluable(ev, (xs + ys)[i])
      {
        if i >= |xs| {
          assert (xs + ys)[i] == ys[i - |xs|];
        }
      }
    }
  }

  lemma AllEvaluableTail<D, R, O>(ev: Evaluator<D, R, O>, ps: seq<Models.Policy>)
    requires |ps| > 0 && AllEvaluable(ev, ps)
    ensures AllEvaluable(ev, ps[1..])
  {
    assert forall i :: 0 <= i < |ps| - 1 ==> ps[1..][i] == ps[i + 1];
  }

  lemma AllEvaluableCons<D, R, O>(ev: Evaluator<D, R, O>, ps: seq<Models.Policy>)
    requires |ps| > 0
    ensures AllEvaluable(ev, ps) <==> Evaluable(ev, ps[0]) && AllEvaluable(ev, ps[1..])
  {
    assert forall i :: 0 < i < |ps| ==> ps[i] == ps[1..][i - 1];
    if Evaluable(ev, ps[0]) && AllEvaluable(ev, ps[1..]) {
      forall i | 0 <= i < |ps|
        ensures Evaluable(ev, ps[i])
      {
        if i > 0 {
          assert ps[i] == ps[1..][i - 1];
        }
      }
    }
    if AllEvaluable(ev, ps) {
      AllEvaluableTail(ev, ps);
    }
  }

  lemma {:induction false} ExpectedAppend<D, R, O>(ev: Evaluator<D, R, O>, xs: seq<Models.Policy>, ys: seq<Models.Policy>)
    ensures Expected(ev, xs + ys) == Expected(ev, xs) + Expected(ev, ys)
    decreases |xs|
  {
    if |xs| == 0 {
      assert xs + ys == ys;
    } else {
      var zs := xs + ys;
      assert zs[0] == xs[0] && zs[1..] == xs[1..] + ys;
      ExpectedAppend(ev, xs[1..], ys);
      var h := if Evaluable(ev, xs[0]) then EngineOutputs(ev, xs[0], Data(ev, xs[0].metadata.target)) else [];
      assert Expected(ev, zs) == h + Expected(ev, zs[1..]);
      assert Expected(ev, xs) == h + Expected(ev, xs[1..]);
      assert h + (Expected(ev, xs[1..]) + Expected(ev, ys)) == (h + Expected(ev, xs[1..])) + Expected(ev, ys);
    }
  }

  /** The loop over actual policies succeeds exactly when each of them can
    * be evaluated. */
  lemma {:induction false} EvalPoliciesOk<D, R, O>(ev: Evaluator<D, R, O>, st: State<D, R>, ps: seq<Models.Policy>)
    requires CacheInvariant(ev, st)
    ensures EvalPolicies(ev, st, ps).Ok? <==> AllEvaluable(ev, ps)
    decreases |ps|
  {
    if |ps| > 0 {
      var p := ps[0];
      AllEvaluableCons(ev, ps);
      EvalPolicyStep(ev, st, p);
      if Evaluable(ev, p) {
        var st1 := EvalPolicy(ev, st, p).value;
        assert EvalPolicies(ev, st, ps) == EvalPolicies(ev, st1, ps[1..]);
        EvalPoliciesOk(ev, st1, ps[1..]);
      }
    }
  }

  /** A successful loop appends the expected results and keeps the cache
    * invariant. */
  lemma {:induction false} EvalPoliciesAppends<D, R, O>(ev: Evaluator<D, R, O>, st: State<D, R>, ps: seq<Models.Policy>)
    requires CacheInvariant(ev, st) && EvalPolicies(ev, st, ps).Ok?
    ensures AllEvaluable(ev, ps)
    ensures EvalPolicies(ev, st, ps).value.results == st.results + Expected(ev, ps)
    ensures CacheInvariant(ev, EvalPolicies(ev, st, ps).value)
    decreases |ps|
  {
    EvalPoliciesOk(ev, st, ps);
    if |ps| > 0 {
      var p := ps[0];
      EvalPolicyStep(ev, st, p);
      var st1 := EvalPolicy(ev, st, p).value;
      assert EvalPolicies(ev, st, ps) == EvalPolicies(ev, st1, ps[1..]);
      EvalPoliciesAppends(ev, st1, ps[1..]);
      var more := EngineOutputs(ev, p, Data(ev, p.metadata.target));
      assert Expected(ev, ps) == more + Expected(ev, ps[1..]);
      AppendChain(st.results, st1.results, more, Expected(ev, ps[1..]), Expected(ev, ps));
    }
  }

  /** A successful loop asks the loader only for the target types of these
    * policies. */
  lemma {:induction false} EvalPoliciesLoads<D, R, O>(ev: Evaluator<D, R, O>, st: State<D, R>, ps: seq<Models.Policy>)
    requires CacheInvariant(ev, st) && EvalPolicies(ev, st, ps).Ok?
    ensures forall t :: t in EvalPolicies(ev, st, ps).value.loads ==>
      t in st.loads || exists i :: 0 <= i < |ps| && ps[i].metadata.target == t
    decreases |ps|
  {
    if |ps| > 0 {
      var p := ps[0];
      assert EvalPolicy(ev, st, p).Ok?;
      EvalPolicyLoads(ev, st, p);
      var st1 := EvalPolicy(ev, st, p).value;
      assert EvalPolicies(ev, st, ps) == EvalPolicies(ev, st1, ps[1..]);
      EvalPoliciesLoads(ev, st1, ps[1..]);
      assert forall i :: 0 < i < |ps| ==> ps[i] == ps[1..][i - 1];
    }
  }

  /** The loop over actual policies succeeds exactly when each of them can
    * be evaluated; it then appends the expected results, keeps the cache
    * invariant, and asks the loader only for types of these policies. */
  lemma EvalPoliciesSpec<D, R, O>(ev: Evaluator<D, R, O>, st: State<D, R>, ps: seq<Models.Policy>)
    requires CacheInvariant(ev, st)
    ensures EvalPolicies(ev, st, ps).Ok? <==> AllEvaluable(ev, ps)
    ensures EvalPolicies(ev, st, ps).Ok? ==>
      AllEvaluable(ev, ps) &&
      var st' := EvalPolicies(ev, st, ps).value;
      st'.results == st.results + Expected(ev, ps)
      && CacheInvariant(ev, st')
      && forall t :: t in st'.loads ==> t in st.loads || exists i :: 0 <= i < |ps| && ps[i].metadata.target == t
  {
    EvalPoliciesOk(ev, st, ps);
    if EvalPolicies(ev, st, ps).Ok? {
      EvalPoliciesAppends(ev, st, ps);
      EvalPoliciesLoads(ev, st, ps);
    }
  }

  /** One actual policy: it goes through exactly when it can be evaluated,
    * and then appends the engine's values for its target data. A supported
    * type without a TargetLoader fails with that ValueError, one whose
    * loader gives no data with "No target data found", and otherwise a
    * failure is the engine's own error. */
  lemma EvalPolicyStep<D, R, O>(ev: Evaluator<D, R, O>, st: State<D, R>, p: Models.Policy)
    requires CacheInvariant(ev, st)
    ensures EvalPolicy(ev, st, p).Ok? <==> Evaluable(ev, p)
    ensures EvalPolicy(ev, st, p).Ok? ==>
      Evaluable(ev, p) &&
      var st' := EvalPolicy(ev, st, p).value;
      st'.results == st.results + EngineOutputs(ev, p, Data(ev, p.metadata.target))
      && CacheInvariant(ev, st')
      && st'.loads == if p.metadata.target in st.loads then st.loads else st.loads + [p.metadata.target]
    ensures p.metadata.target in Models.TargetTypes && ev.load(p.metadata.target).None? ==>
      EvalPolicy(ev, st, p) == Err(NoLoader(p.metadata.target))
    ensures p.metadata.target in Models.TargetTypes && ev.load(p.metadata.target) == Some([]) ==>
      EvalPolicy(ev, st, p) == Err(ValueError("No target data found for \"" + p.metadata.target + "\""))
    ensures (p.metadata.target in Models.TargetTypes && ev.load(p.metadata.target).Some?
      && |Data(ev, p.metadata.target)| > 0 && EvalPolicy(ev, st, p).Err?) ==>
      EvalAll(ev, p, Data(ev, p.metadata.target)) == Err(EvalPolicy(ev, st, p).error)
  {
    if p.metadata.target in Models.TargetTypes {
      TargetDataSpec(ev, st, p.metadata.target);
      if EngineAccepts(ev, p, Data(ev, p.metadata.target)) {
        EvalAllOutputs(ev, p, Data(ev, p.metadata.target));
      }
    }
  }

  /** A policy that goes through keeps the cache invariant and records a
    * load only for a type not asked for before. */
  lemma EvalPolicyLoads<D, R, O>(ev: Evaluator<D, R, O>, st: State<D, R>, p: Models.Policy)
    requires CacheInvariant(ev, st) && EvalPolicy(ev, st, p).Ok?
    ensures CacheInvariant(ev, EvalPolicy(ev, st, p).value)
    ensures EvalPolicy(ev, st, p).value.loads ==
      if p.metadata.target in st.loads then st.loads else st.loads + [p.metadata.target]
  {
    TargetDataSpec(ev, st, p.metadata.target);
  }

  /** The policies one loaded element stands for: itself, or the
    * transpiler's output for a policybook. */
  function Actual<D, R, O>(ev: Evaluator<D, R, O>, item: Item): (r: Result<seq<Models.Policy>>)
    ensures item.OtherItem? ==> r.Err? && r.error.TypeError?
    ensures item.PolicyItem? && !item.policy.isPolicybook ==> r == Ok([item.policy])
    ensures item.PolicyItem? && item.policy.isPolicybook && ev.transpiler.None? ==>
      r == Err(ValueError("transpiler is not initialized"))
  {
    match item
    case OtherItem(c) =>
      Err(TypeError("every policy must be an instance of Policy class, but found " + c + " instance"))
    case PolicyItem(p) =>
      if !p.isPolicybook then Ok([p])
      else
        match ev.transpiler
        case None => Err(ValueError("transpiler is not initialized"))
        case Some(t) => t(p.policybookData)
  }

  function EvalItems<D, R, O>(ev: Evaluator<D, R, O>, st: State<D, R>, items: seq<Item>): Result<State<D, R>>
    decreases |items|
  {
    if |items| == 0 then Ok(st)
    else
      match Actual(ev, items[0])
      case Err(e) => Err(e)
      case Ok(ps) =>
        match EvalPolicies(ev, st, ps)
        case Err(e) => Err(e)
        case Ok(st') => EvalItems(ev, st', items[1..])
  }

  /** Every element's actual policies, in order; None when some element
    * has none (it is not a Policy, or its transpilation fails). */
  function AllActual<D, R, O>(ev: Evaluator<D, R, O>, items: seq<Item>): Option<seq<Models.Policy>>
    decreases |items|
  {
    if |items| == 0 then Some([])
    else
      match Actual(ev, items[0])
      case Err(_) => None
      case Ok(ps) =>
        match AllActual(ev, items[1..])
        case None => None
        case Some(rest) => Some(ps + rest)
  }

  /** The nested loops succeed exactly when every element has its actual
    * policies and each of those can be evaluated; the results are then the
    * expected ones. */
  lemma EvalItemsSpec<D, R, O>(ev: Evaluator<D, R, O>, st: State<D, R>, items: seq<Item>)
    requires CacheInvariant(ev, st)
    ensures EvalItems(ev, st, items).Ok? <==> AllActual(ev, items).Some? && AllEvaluable(ev, AllActual(ev, items).value)
    ensures EvalItems(ev, st, items).Ok? ==>
      AllActual(ev, items).Some? && AllEvaluable(ev, AllActual(ev, items).value)
      && EvalItems(ev, st, items).value.results == st.results + Expected(ev, AllActual(ev, items).value)
      && CacheInvariant(ev, EvalItems(ev, st, items).value)
  {
    EvalItemsOk(ev, st, items);
    if EvalItems(ev, st, items).Ok? {
      EvalItemsResults(ev, st, items);
    }
  }

  /** Helper for EvalItemsSpec: when the nested loops succeed. */
  lemma {:induction false} EvalItemsOk<D, R, O>(ev: Evaluator<D, R, O>, st: State<D, R>, items: seq<Item>)
    requires CacheInvariant(ev, st)
    ensures EvalItems(ev, st, items).Ok? <==> AllActual(ev, items).Some? && AllEvaluable(ev, AllActual(ev, items).value)
    decreases |items|
  {
    if |items| > 0 {
      match Actual(ev, items[0])
      case Err(_) =>
      case Ok(ps) =>
        EvalPoliciesOk(ev, st, ps);
        if EvalPolicies(ev, st, ps).Ok? {
          EvalPoliciesAppends(ev, st, ps);
        }
        var tail := AllActual(ev, items[1..]);
        if tail.Some? {
          AllEvaluableAppend(ev, ps, tail.value);
        }
        if EvalPolicies(ev, st, ps).Ok? {
          EvalItemsOk(ev, EvalPolicies(ev, st, ps).value, items[1..]);
        }
    }
  }

  /** Helper for EvalItemsSpec: what the nested loops leave when they
    * succeed. */
  lemma {:induction false} EvalItemsResults<D, R, O>(ev: Evaluator<D, R, O>, st: State<D, R>, items: seq<Item>)
    requires CacheInvariant(ev, st) && EvalItems(ev, st, items).Ok?
    ensures AllActual(ev, items).Some? && AllEvaluable(ev, AllActual(ev, items).value)
    ensures EvalItems(ev, st, items).value.results == st.results + Expected(ev, AllActual(ev, items).value)
    ensures CacheInvariant(ev, EvalItems(ev, st, items).value)
    decreases |items|
  {
    if |items| == 0 {
      assert st.results + [] == st.results;
    } else {
      assert Actual(ev, items[0]).Ok?;
      var ps := Actual(ev, items[0]).value;
      assert EvalPolicies(ev, st, ps).Ok?;
      EvalPoliciesAppends(ev, st, ps);
      var st1 := EvalPolicies(ev, st, ps).value;
      assert EvalItems(ev, st, items) == EvalItems(ev, st1, items[1..]);
      EvalItemsResults(ev, st1, items[1..]);
      var tail := AllActual(ev, items[1..]).value;
      assert AllActual(ev, items) == Some(ps + tail);
      AllEvaluableAppend(ev, ps, tail);
      ExpectedAppend(ev, ps, tail);
      AppendChain(st.results, st1.results, Expected(ev, ps), Expected(ev, tail), Expected(ev, ps + tail));
    }
  }

  /** Helper for EvalItemsResults: appending in two steps. */
  lemma AppendChain<R>(x: seq<R>, y: seq<R>, a: seq<R>, b: seq<R>, ab: seq<R>)
    requires y == x + a && ab == a + b
    ensures y + b == x + ab
  {
    assert x + a + b == x + (a + b);
  }

  /** PolicyEvaluator.run over the elements the policy loader returned: the
    * summarizer is applied once, to every single result; a missing one is
    * found only then, as the AttributeError of calling run on None. */
  function Run<D, R, O>(ev: Evaluator<D, R, O>, items: seq<Item>): (r: Result<O>)
  {
    match EvalItems(ev, State([], [], []), items)
    case Err(e) => Err(e)
    case Ok(st) =>
      match ev.summarizer
      case None => Err(AttributeError("'NoneType' object has no attribute 'run'"))
      case Some(summarize) => Ok(summarize(st.results))
  }

  /** run succeeds exactly when every element stands for policies that can
    * all be evaluated and a summarizer is set, and then summarises, once,
    * one result per (policy, target datum) pair in nested-loop order;
    * without a summarizer, an evaluation that goes through ends in the
    * AttributeError. */
  lemma RunSpec<D, R, O>(ev: Evaluator<D, R, O>, items: seq<Item>)
    ensures Run(ev, items).Ok? <==>
      AllActual(ev, items).Some? && AllEvaluable(ev, AllActual(ev, items).value) && ev.summarizer.Some?
    ensures Run(ev, items).Ok? ==>
      AllActual(ev, items).Some? && AllEvaluable(ev, AllActual(ev, items).value) && ev.summarizer.Some?
      && Run(ev, items).value == ev.summarizer.value(Expected(ev, AllActual(ev, items).value))
    ensures AllActual(ev, items).Some? && AllEvaluable(ev, AllActual(ev, items).value) && ev.summarizer.None? ==>
      Run(ev, items) == Err(AttributeError("'NoneType' object has no attribute 'run'"))
  {
    EvalItemsSpec(ev, State([], [], []), items);
    if EvalItems(ev, State([], [], []), items).Ok? {
      assert [] + Expected(ev, AllActual(ev, items).value) == Expected(ev, AllActual(ev, items).value);
    }
  }

  /** In a run that succeeds, the loader is asked for each target type at
    * most once. */
  lemma RunLoadsOnce<D, R, O>(ev: Evaluator<D, R, O>, items: seq<Item>)
    requires EvalItems(ev, State([], [], []), items).Ok?
    ensures Seqs.NoDup(EvalItems(ev, State([], [], []), items).value.loads)
  {
    EvalItemsSpec(ev, State([], [], []), items);
    var st := EvalItems(ev, State([], [], []), items).value;
    forall i, j | 0 <= i < j < |st.loads|
      ensures st.loads[i] != st.loads[j]
    {
      assert PyDict.Keys(st.cache)[i] == st.cache[i].0;
      assert PyDict.Keys(st.cache)[j] == st.cache[j].0;
    }
  }

  /** An engine call that raises aborts run with that error: a single plain
    * policy with a supported type whose TargetLoader gives some data fails
    * exactly as the engine loop over its data fails. */
  lemma EngineErrorAbortsRun<D, R, O>(ev: Evaluator<D, R, O>, p: Models.Policy)
    requires !p.isPolicybook && p.metadata.target in Models.TargetTypes
    requires ev.load(p.metadata.target).Some? && |Data(ev, p.metadata.target)| > 0
    requires EvalAll(ev, p, Data(ev, p.metadata.target)).Err?
    ensures Run(ev, [PolicyItem(p)]) == Err(EvalAll(ev, p, Data(ev, p.metadata.target)).error)
  {
    var st := State([], [], []);
    EvalPolicyStep(ev, st, p);
    assert EvalPolicies(ev, st, [p]) == EvalPolicy(ev, st, p);
  }

  /** A plain policy whose supported type has no TargetLoader aborts run
    * with "failed to get target loader", before the engine is called. */
  lemma MissingLoaderAbortsRun<D, R, O>(ev: Evaluator<D, R, O>, p: Models.Policy)
    requires !p.isPolicybook && p.metadata.target in Models.TargetTypes && ev.load(p.metadata.target).None?
    ensures Run(ev, [PolicyItem(p)]) == Err(NoLoader(p.metadata.target))
  {
    var st := State([], [], []);
    EvalPolicyStep(ev, st, p);
    assert EvalPolicies(ev, st, [p]) == EvalPolicy(ev, st, p);
  }

  /** With the registry the constructor installs, an event or REST policy
    * can never be evaluated: run fails with "failed to get target loader",
    * and only play and task policies are evaluable. */
  lemma EventAndRestRejected<D, R, O>(
    engine: Option<(Models.Policy, D) -> Result<R>>,
    transpiler: Option<Option<Policybook.PolicySetAst> -> Result<seq<Models.Policy>>>,
    summarizer: Option<seq<R> -> O>,
    ansibleLoad: string -> seq<D>,
    p: Models.Policy)
    requires engine.Some?
    ensures NewEvaluator(engine, transpiler, summarizer, ansibleLoad).Ok?
    ensures Evaluable(NewEvaluator(engine, transpiler, summarizer, ansibleLoad).value, p) ==>
      p.metadata.target == Models.Play || p.metadata.target == Models.Task
    ensures !p.isPolicybook && (p.metadata.target == Models.Event || p.metadata.target == Models.Rest) ==>
      Run(NewEvaluator(engine, transpiler, summarizer, ansibleLoad).value, [PolicyItem(p)]) == Err(NoLoader(p.metadata.target))
  {
    var ev := NewEvaluator(engine, transpiler, summarizer, ansibleLoad).value;
    if !p.isPolicybook && (p.metadata.target == Models.Event || p.metadata.target == Models.Rest) {
      MissingLoaderAbortsRun(ev, p);
    }
  }
}
