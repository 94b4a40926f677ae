// The shared data model: policies, the verdict of one evaluation, and the
// result tree (file -> policy -> target) with its summary.

module Models {
  import opened Wrappers
  import PyDict
  import Json
  import Seqs
  import Policybook

  const Play: string := "play"
  const Task: string := "task"
  const Event: string := "event"
  const Rest: string := "rest"

  /** The target types an evaluation may ask for, in their declared order. */
  const TargetTypes: seq<string> := [Play, Task, Event, Rest]

  datatype PolicyMetadata = PolicyMetadata(
    target: string,
    tags: seq<string>,
    targetModule: string,
    dependency: seq<string>,
    attrs: PyDict.Dict<string, string>)

  const EmptyMetadata := PolicyMetadata("", [], "", [], [])

  /** A policy in some language; a policybook keeps its parsed tree in
    * `policybookData` until a transpiler replaces it. */
  datatype Policy = Policy(
    path: string,
    name: string,
    isPolicybook: bool,
    language: string,
    metadata: PolicyMetadata,
    body: string,
    policybookData: Option<Policybook.PolicySetAst>)

  /** Policy.save(filepath, update_path) without the file write: the path the
    * body is written to, and the policy afterwards. */
  function Save(p: Policy, filepath: string, updatePath: bool): (r: (Policy, string))
  {
    var target := if filepath == "" then p.path else filepath;
    (if updatePath then p.(path := target) else p, target)
  }

  // ---------------------------------------------------------------------
  // Verdicts

  /** ValidationType: True, False and None in the source. */
  datatype Validation = Success | Failure | NoVerdict

  datatype ActionKind = Deny | Allow | Info | Warn | Ignore | NoAction

  /** The keys ValidationType.from_eval_result tests, in its order. */
  const ValidationKeys: seq<string> := ["deny", "allow", "warn", "info", "ignore", "permit", "forbid"]

  /** The keys ActionType.from_eval_result tests, in its order. */
  const ActionKeys: seq<string> := ["deny", "allow", "info", "warn", "ignore"]

  /** deny, warn, info and forbid fail when truthy; allow, ignore and permit
    * fail when falsy. */
  predicate FailsWhenTruthy(key: string)
  {
    key == "deny" || key == "warn" || key == "info" || key == "forbid"
  }

  /** eval_result.get("value", {}) */
  function EvalValue(evalResult: PyDict.Dict<string, Json.Json>): Json.Json
  {
    PyDict.Get(evalResult, "value").GetOr(Json.JObj([]))
  }

  /** The if/elif chain of ValidationType.from_eval_result over `keys`:
    * the first key present decides whether there is a violation. */
  function ViolationChain(value: Json.Json, keys: seq<string>): Result<bool>
  {
    if |keys| == 0 then Ok(false)
    else
      var present :- Json.In(keys[0], value);
      if present then
        var v :- Json.GetItem(value, keys[0]);
        Ok(if FailsWhenTruthy(keys[0]) then Json.Truthy(v) else !Json.Truthy(v))
      else ViolationChain(value, keys[1..])
  }

  /** ValidationType.from_eval_result */
  function ValidationOf(evalResult: PyDict.Dict<string, Json.Json>, isTargetType: bool): (r: Result<Validation>)
    ensures !isTargetType ==> r == Ok(NoVerdict)
    ensures isTargetType && r.Ok? ==> r.value != NoVerdict
  {
    if !isTargetType then Ok(NoVerdict)
    else
      var violation :- ViolationChain(EvalValue(evalResult), ValidationKeys);
      Ok(if violation then Failure else Success)
  }

  /** The first of `keys` that the object has, if any. */
  function DecidingKey(fields: seq<(string, Json.Json)>, keys: seq<string>): (r: Option<string>)
    ensures r.Some? ==> r.value in keys && r.value in PyDict.Keys(fields)
    ensures r.None? <==> forall i :: 0 <= i < |keys| ==> keys[i] !in PyDict.Keys(fields)
  {
    if |keys| == 0 then None
    else if keys[0] in PyDict.Keys(fields) then Some(keys[0])
    else DecidingKey(fields, keys[1..])
  }

  /** Reference reading of the verdict: the deciding key's polarity against
    * the truthiness of its value; no deciding key is a success. */
  function VerdictOfObject(fields: seq<(string, Json.Json)>): Validation
  {
    match DecidingKey(fields, ValidationKeys)
    case None => Success
    case Some(k) =>
      var v := PyDict.Get(fields, k).value;
      if FailsWhenTruthy(k) == Json.Truthy(v) then Failure else Success
  }

  lemma {:induction false} ViolationChainObject(fields: seq<(string, Json.Json)>, keys: seq<string>)
    ensures ViolationChain(Json.JObj(fields), keys) ==
      match DecidingKey(fields, keys)
      case None => Ok(false)
      case Some(k) => Ok(FailsWhenTruthy(k) == Json.Truthy(PyDict.Get(fields, k).value))
  {
    if |keys| > 0 && keys[0] !in PyDict.Keys(fields) {
      ViolationChainObject(fields, keys[1..]);
    }
  }

  /** For an object value the verdict is decided by the first listed key it
    * holds: a violation (Failure) exactly when that key's value has the
    * failing truthiness, Success when it holds none of the keys. */
  lemma ValidationOfObject(evalResult: PyDict.Dict<string, Json.Json>)
    requires EvalValue(evalResult).JObj?
    ensures ValidationOf(evalResult, true) == Ok(VerdictOfObject(EvalValue(evalResult).fields))
  {
    ViolationChainObject(EvalValue(evalResult).fields, ValidationKeys);
  }

  /** A value that is neither a dict, a list nor a string cannot be searched
    * for keys: `"deny" in value` raises TypeError. */
  lemma ValidationOfScalar(evalResult: PyDict.Dict<string, Json.Json>)
    requires !(EvalValue(evalResult).JObj? || EvalValue(evalResult).JArr? || EvalValue(evalResult).JStr?)
    ensures ValidationOf(evalResult, true).Err?
    ensures ValidationOf(evalResult, true).error.TypeError?
  {
  }

  function ActionOfKey(key: string): ActionKind
  {
    if key == "deny" then Deny
    else if key == "allow" then Allow
    else if key == "info" then Info
    else if key == "warn" then Warn
    else if key == "ignore" then Ignore
    else NoAction
  }

  /** The if/elif chain of ActionType.from_eval_result over `keys`. */
  function ActionChain(value: Json.Json, keys: seq<string>): Result<ActionKind>
  {
    if |keys| == 0 then Ok(NoAction)
    else
      var present :- Json.In(keys[0], value);
      if present then Ok(ActionOfKey(keys[0])) else ActionChain(value, keys[1..])
  }

  /** ActionType.from_eval_result */
  function ActionOf(evalResult: PyDict.Dict<string, Json.Json>, isTargetType: bool): (r: Result<ActionKind>)
    ensures !isTargetType ==> r == Ok(NoAction)
  {
    if !isTargetType then Ok(NoAction)
    else ActionChain(EvalValue(evalResult), ActionKeys)
  }

  lemma {:induction false} ActionChainObject(fields: seq<(string, Json.Json)>, keys: seq<string>)
    ensures ActionChain(Json.JObj(fields), keys) ==
      match DecidingKey(fields, keys)
      case None => Ok(NoAction)
      case Some(k) => Ok(ActionOfKey(k))
  {
    if |keys| > 0 && keys[0] !in PyDict.Keys(fields) {
      ActionChainObject(fields, keys[1..]);
    }
  }

  /** For an object value the action is named by the first of deny, allow,
    * info, warn, ignore that it holds, and is NoAction when it holds none;
    * permit and forbid never name an action. */
  lemma ActionOfObject(evalResult: PyDict.Dict<string, Json.Json>)
    requires EvalValue(evalResult).JObj?
    ensures ActionOf(evalResult, true) ==
      match DecidingKey(EvalValue(evalResult).fields, ActionKeys)
      case None => Ok(NoAction)
      case Some(k) => Ok(ActionOfKey(k))
    ensures ActionOf(evalResult, true) == Ok(NoAction) <==>
      forall i :: 0 <= i < |ActionKeys| ==> ActionKeys[i] !in PyDict.Keys(EvalValue(evalResult).fields)
  {
    ActionChainObject(EvalValue(evalResult).fields, ActionKeys);
  }

  /** A Cedar-style result holding only permit/forbid has no action, and its
    * verdict is decided by that key alone. */
  lemma PermitForbidOnly(evalResult: PyDict.Dict<string, Json.Json>, key: string, v: Json.Json)
    requires key == "permit" || key == "forbid"
    requires EvalValue(evalResult) == Json.JObj([(key, v)])
    ensures ActionOf(evalResult, true) == Ok(NoAction)
    ensures ValidationOf(evalResult, true) ==
      Ok(if (key == "forbid") == Json.Truthy(v) then Failure else Success)
  {
    PermitForbidNoAction(evalResult, key, v);
    PermitForbidVerdict(evalResult, key, v);
  }

  lemma PermitForbidNoAction(evalResult: PyDict.Dict<string, Json.Json>, key: string, v: Json.Json)
    requires key == "permit" || key == "forbid"
    requires EvalValue(evalResult) == Json.JObj([(key, v)])
    ensures ActionOf(evalResult, true) == Ok(NoAction)
  {
    assert PyDict.Keys([(key, v)]) == [key];
    ActionOfObject(evalResult);
  }

  lemma PermitForbidVerdict(evalResult: PyDict.Dict<string, Json.Json>, key: string, v: Json.Json)
    requires key == "permit" || key == "forbid"
    requires EvalValue(evalResult) == Json.JObj([(key, v)])
    ensures ValidationOf(evalResult, true) ==
      Ok(if (key == "forbid") == Json.Truthy(v) then Failure else Success)
  {
    ValidationOfObject(evalResult);
    DecidingKeySingle(key, v, ValidationKeys);
    assert PyDict.Get([(key, v)], key) == Some(v);
  }

  lemma {:induction false} DecidingKeySingle(key: string, v: Json.Json, keys: seq<string>)
    requires key in keys
    ensures DecidingKey([(key, v)], keys) == Some(key)
  {
    assert PyDict.Keys([(key, v)]) == [key];
    if keys[0] != key {
      DecidingKeySingle(key, v, keys[1..]);
    }
  }

  // ---------------------------------------------------------------------
  // The result tree

  type Lines = PyDict.Dict<string, Json.Json>

  datatype TargetResult = TargetResult(
    name: string,
    lines: Lines,
    validated: Validation,
    actionType: ActionKind,
    message: string)
  {
    /** A failed verdict on a deny or allow action marks a violation. */
    predicate IsViolation()
    {
      validated == Failure && (actionType == Deny || actionType == Allow)
    }
  }

  datatype PolicyResult = PolicyResult(
    policyName: string,
    targetType: string,
    violation: bool,
    targets: seq<TargetResult>)

  /** A policy is violated exactly when one of its targets is. */
  predicate PolicyConsistent(p: PolicyResult)
  {
    p.violation <==> exists i :: 0 <= i < |p.targets| && p.targets[i].IsViolation()
  }

  /** PolicyResult.add_target_result */
  function AddTargetResult(p: PolicyResult, t: TargetResult): (r: PolicyResult)
    ensures r.policyName == p.policyName && r.targetType == p.targetType
    ensures r.targets == p.targets + [t]
    ensures PolicyConsistent(p) ==> PolicyConsistent(r)
    ensures p.violation ==> r.violation
  {
    var r := p.(violation := p.violation || t.IsViolation(), targets := p.targets + [t]);
    assert forall i :: 0 <= i < |p.targets| ==> r.targets[i] == p.targets[i];
    assert r.targets[|p.targets|] == t;
    r
  }

  datatype FileResult = FileResult(
    path: string,
    violation: bool,
    policies: seq<PolicyResult>,
    metadata: PyDict.Dict<string, Json.Json>)

  function PolicyNames(ps: seq<PolicyResult>): (ns: seq<string>)
    ensures |ns| == |ps|
    ensures forall i :: 0 <= i < |ps| ==> ns[i] == ps[i].policyName
  {
    if |ps| == 0 then [] else [ps[0].policyName] + PolicyNames(ps[1..])
  }

  predicate AnyPolicyViolated(ps: seq<PolicyResult>)
  {
    exists i :: 0 <= i < |ps| && ps[i].violation
  }

  /** Policy names are unique within a file, every policy is consistent, and
    * the file is violated exactly when one of its policies is. */
  predicate FileConsistent(f: FileResult)
  {
    && Seqs.NoDup(PolicyNames(f.policies))
    && (forall i :: 0 <= i < |f.policies| ==> PolicyConsistent(f.policies[i]))
    && (f.violation <==> AnyPolicyViolated(f.policies))
  }

  /** FileResult.get_policy_result: the index of the first policy so named. */
  function PolicyIndex(ps: seq<PolicyResult>, name: string): (r: Option<nat>)
    ensures r.None? <==> name !in PolicyNames(ps)
    ensures r.Some? ==> r.value < |ps| && ps[r.value].policyName == name
    ensures r.Some? ==> forall j :: 0 <= j < r.value ==> ps[j].policyName != name
  {
    if |ps| == 0 then None
    else if ps[0].policyName == name then Some(0)
    else
      match PolicyIndex(ps[1..], name)
      case None => None
      case Some(i) => Some(i + 1)
  }

  function TargetsIn(ps: seq<PolicyResult>): nat
  {
    if |ps| == 0 then 0 else |ps[0].targets| + TargetsIn(ps[1..])
  }

  lemma {:induction false} TargetsInUpdate(ps: seq<PolicyResult>, i: nat, p: PolicyResult)
    requires i < |ps|
    ensures TargetsIn(ps[i := p]) == TargetsIn(ps) - |ps[i].targets| + |p.targets|
  {
    if i > 0 {
      TargetsInUpdate(ps[1..], i - 1, p);
      assert ps[i := p][1..] == ps[1..][i - 1 := p];
    }
  }

  lemma {:induction false} TargetsInSnoc(ps: seq<PolicyResult>, p: PolicyResult)
    ensures TargetsIn(ps + [p]) == TargetsIn(ps) + |p.targets|
  {
    if |ps| > 0 {
      TargetsInSnoc(ps[1..], p);
      assert (ps + [p])[1..] == ps[1..] + [p];
    }
  }

  /** The policy list after a report for `name`: the named policy is the one
    * that existed, or a new one appended at the end. */
  lemma {:induction false} PolicyNamesSnoc(ps: seq<PolicyResult>, p: PolicyResult)
    ensures PolicyNames(ps + [p]) == PolicyNames(ps) + [p.policyName]
  {
  }

  /** The arguments of FileResult.add_policy_result. */
  datatype Report = Report(
    validation: Validation,
    actionType: ActionKind,
    message: string,
    isTargetType: bool,
    policyName: string,
    targetType: string,
    targetName: string,
    lines: Lines)
  {
    function Target(): TargetResult
    {
      TargetResult(targetName, lines, validation, actionType, message)
    }
  }

  /** The policy after the report: the target is added only when the target
    * type matched. */
  function Touch(p: PolicyResult, rep: Report): PolicyResult
  {
    if rep.isTargetType then AddTargetResult(p, rep.Target()) else p
  }

  /** The policy list after the report: the first policy of that name is
    * touched, or a new policy is touched and appended at the end. */
  function AddToPolicies(ps: seq<PolicyResult>, rep: Report): seq<PolicyResult>
  {
    match PolicyIndex(ps, rep.policyName)
    case Some(i) => ps[i := Touch(ps[i], rep)]
    case None => ps + [Touch(PolicyResult(rep.policyName, rep.targetType, false, []), rep)]
  }

  /** FileResult.add_policy_result: the file becomes violated once any of
    * its policies is; it never goes back. */
  function AddPolicyResult(f: FileResult, rep: Report): (r: FileResult)
    ensures r.path == f.path && r.metadata == f.metadata
    ensures r.policies == AddToPolicies(f.policies, rep)
    ensures f.violation ==> r.violation
  {
    var ps := AddToPolicies(f.policies, rep);
    f.(policies := ps, violation := f.violation || AnyPolicyViolated(ps))
  }

  /** The report reaches the policy named in it: an existing one keeps its
    * place, a new one is appended; no other name appears. */
  lemma AddPolicyResultNames(f: FileResult, rep: Report)
    ensures PolicyNames(AddPolicyResult(f, rep).policies) ==
      if rep.policyName in PolicyNames(f.policies) then PolicyNames(f.policies)
      else PolicyNames(f.policies) + [rep.policyName]
  {
    var ps := f.policies;
    match PolicyIndex(ps, rep.policyName)
    case Some(i) =>
      assert PolicyNames(ps[i := Touch(ps[i], rep)]) == PolicyNames(ps);
    case None =>
      PolicyNamesSnoc(ps, Touch(PolicyResult(rep.policyName, rep.targetType, false, []), rep));
  }

  /** Exactly one target is recorded when the target type matched, none
    * otherwise. */
  lemma AddPolicyResultTargets(f: FileResult, rep: Report)
    ensures TargetsIn(AddPolicyResult(f, rep).policies) == TargetsIn(f.policies) + (if rep.isTargetType then 1 else 0)
  {
    var ps := f.policies;
    match PolicyIndex(ps, rep.policyName)
    case Some(i) =>
      TargetsInUpdate(ps, i, Touch(ps[i], rep));
    case None =>
      TargetsInSnoc(ps, Touch(PolicyResult(rep.policyName, rep.targetType, false, []), rep));
  }

  /** Names stay unique: a known name keeps its slot, a new one is appended. */
  lemma AddPolicyResultNoDup(f: FileResult, rep: Report)
    requires Seqs.NoDup(PolicyNames(f.policies))
    ensures Seqs.NoDup(PolicyNames(AddPolicyResult(f, rep).policies))
  {
    AddPolicyResultNames(f, rep);
    if rep.policyName !in PolicyNames(f.policies) {
      Seqs.NoDupSnoc(PolicyNames(f.policies), rep.policyName);
    }
  }

  /** Touching one policy keeps every policy's flag the OR of its targets. */
  lemma AddToPoliciesConsistent(ps: seq<PolicyResult>, rep: Report)
    requires forall i :: 0 <= i < |ps| ==> PolicyConsistent(ps[i])
    ensures forall i :: 0 <= i < |AddToPolicies(ps, rep)| ==> PolicyConsistent(AddToPolicies(ps, rep)[i])
  {
    var qs := AddToPolicies(ps, rep);
    match PolicyIndex(ps, rep.policyName)
    case Some(i) =>
      assert forall j :: 0 <= j < |qs| && j != i ==> qs[j] == ps[j];
      assert PolicyConsistent(qs[i]);
    case None =>
      assert forall j :: 0 <= j < |ps| ==> qs[j] == ps[j];
      assert PolicyConsistent(qs[|ps|]);
  }

  /** Every policy keeps its place and name, and a violated policy stays
    * violated after any report. */
  lemma AddToPoliciesKeepsViolation(ps: seq<PolicyResult>, rep: Report)
    ensures |AddToPolicies(ps, rep)| >= |ps|
    ensures forall j :: 0 <= j < |ps| ==> AddToPolicies(ps, rep)[j].policyName == ps[j].policyName
    ensures forall j :: 0 <= j < |ps| && ps[j].violation ==> AddToPolicies(ps, rep)[j].violation
    ensures AnyPolicyViolated(ps) ==> AnyPolicyViolated(AddToPolicies(ps, rep))
  {
    var qs := AddToPolicies(ps, rep);
    match PolicyIndex(ps, rep.policyName)
    case Some(i) =>
      assert forall j :: 0 <= j < |ps| && j != i ==> qs[j] == ps[j];
    case None =>
      assert forall j :: 0 <= j < |ps| ==> qs[j] == ps[j];
    if AnyPolicyViolated(ps) {
      var j :| 0 <= j < |ps| && ps[j].violation;
      assert qs[j].violation;
    }
  }

  /** Adding a report keeps a file consistent: names stay unique and each
    * violation flag stays the OR of the flags below it. */
  lemma AddPolicyResultConsistent(f: FileResult, rep: Report)
    requires FileConsistent(f)
    ensures FileConsistent(AddPolicyResult(f, rep))
  {
    AddPolicyResultNoDup(f, rep);
    AddToPoliciesConsistent(f.policies, rep);
    if f.violation {
      AddToPoliciesKeepsViolation(f.policies, rep);
    }
  }

  // ---------------------------------------------------------------------
  // Summary

  datatype Summary = Summary(
    totalPolicies: nat,
    violationDetected: nat,
    policyList: seq<string>,
    totalFiles: nat,
    validated: int,
    notValidated: nat,
    fileList: seq<string>)

  function Paths(files: seq<FileResult>): (ps: seq<string>)
    ensures |ps| == |files|
    ensures forall i :: 0 <= i < |files| ==> ps[i] == files[i].path
  {
    if |files| == 0 then [] else Paths(files[..|files| - 1]) + [files[|files| - 1].path]
  }

  /** Whether some file holds a policy of this name (violated, if asked). */
  predicate HasPolicy(files: seq<FileResult>, name: string, violatedOnly: bool)
  {
    exists i, j :: 0 <= i < |files| && 0 <= j < |files[i].policies| &&
      files[i].policies[j].policyName == name && (violatedOnly ==> files[i].policies[j].violation)
  }

  function NamesOf(ps: seq<PolicyResult>, violatedOnly: bool): (ns: seq<string>)
    ensures forall n :: n in ns <==> exists j :: 0 <= j < |ps| && ps[j].policyName == n && (violatedOnly ==> ps[j].violation)
  {
    if |ps| == 0 then []
    else
      var rest := NamesOf(ps[1..], violatedOnly);
      assert forall j :: 0 <= j < |ps[1..]| ==> ps[1..][j] == ps[j + 1];
      var ns := (if !violatedOnly || ps[0].violation then [ps[0].policyName] else []) + rest;
      assert forall n :: (exists j :: 0 <= j < |ps| && ps[j].policyName == n && (violatedOnly ==> ps[j].violation)) ==> n in ns by {
        forall n | exists j :: 0 <= j < |ps| && ps[j].policyName == n && (violatedOnly ==> ps[j].violation)
          ensures n in ns
        {
          var j :| 0 <= j < |ps| && ps[j].policyName == n && (violatedOnly ==> ps[j].violation);
          if j > 0 {
            assert ps[1..][j - 1] == ps[j];
          }
        }
      }
      ns
  }

  /** Policy names file by file, in the order the summary loop visits them. */
  function AllPolicyNames(files: seq<FileResult>, violatedOnly: bool): (ns: seq<string>)
    ensures forall n :: n in ns <==> HasPolicy(files, n, violatedOnly)
  {
    if |files| == 0 then []
    else
      var init := files[..|files| - 1];
      var last := files[|files| - 1];
      var ns := AllPolicyNames(init, violatedOnly) + NamesOf(last.policies, violatedOnly);
      HasPolicySnoc(files, violatedOnly);
      ns
  }

  /** Helper for AllPolicyNames: a policy is in the files exactly when it is
    * in all but the last file or in the last one. */
  lemma HasPolicySnoc(files: seq<FileResult>, violatedOnly: bool)
    requires |files| > 0
    ensures forall n :: HasPolicy(files, n, violatedOnly) <==>
      HasPolicy(files[..|files| - 1], n, violatedOnly) || n in NamesOf(files[|files| - 1].policies, violatedOnly)
  {
    forall n
      ensures HasPolicy(files, n, violatedOnly) <==>
        HasPolicy(files[..|files| - 1], n, violatedOnly) || n in NamesOf(files[|files| - 1].policies, violatedOnly)
    {
      if HasPolicy(files, n, violatedOnly) {
        HasPolicyFromSnoc(files, n, violatedOnly);
      }
      if HasPolicy(files[..|files| - 1], n, violatedOnly) {
        HasPolicyInInit(files, n, violatedOnly);
      }
      if n in NamesOf(files[|files| - 1].policies, violatedOnly) {
        HasPolicyInLast(files, n, violatedOnly);
      }
    }
  }

  lemma HasPolicyFromSnoc(files: seq<FileResult>, n: string, violatedOnly: bool)
    requires |files| > 0 && HasPolicy(files, n, violatedOnly)
    ensures HasPolicy(files[..|files| - 1], n, violatedOnly) || n in NamesOf(files[|files| - 1].policies, violatedOnly)
  {
    var init := files[..|files| - 1];
    var i, j :| 0 <= i < |files| && 0 <= j < |files[i].policies| &&
      files[i].policies[j].policyName == n && (violatedOnly ==> files[i].policies[j].violation);
    if i < |init| {
      assert init[i] == files[i];
    }
  }

  lemma HasPolicyInInit(files: seq<FileResult>, n: string, violatedOnly: bool)
    requires |files| > 0 && HasPolicy(files[..|files| - 1], n, violatedOnly)
    ensures HasPolicy(files, n, violatedOnly)
  {
    var init := files[..|files| - 1];
    var i, j :| 0 <= i < |init| && 0 <= j < |init[i].policies| &&
      init[i].policies[j].policyName == n && (violatedOnly ==> init[i].policies[j].violation);
    assert files[i] == init[i];
  }

  lemma HasPolicyInLast(files: seq<FileResult>, n: string, violatedOnly: bool)
    requires |files| > 0 && n in NamesOf(files[|files| - 1].policies, violatedOnly)
    ensures HasPolicy(files, n, violatedOnly)
  {
    var last := files[|files| - 1];
    var j :| 0 <= j < |last.policies| && last.policies[j].policyName == n && (violatedOnly ==> last.policies[j].violation);
  }

  function ViolatedFiles(files: seq<FileResult>): seq<bool>
  {
    seq(|files|, i requires 0 <= i < |files| => files[i].violation)
  }

  /** EvaluationSummary.from_files. The loop's "append the name unless it is
    * listed" is Dedup over the names in visiting order. */
  function FromFiles(files: seq<FileResult>): (s: Summary)
    ensures s.totalFiles == |files| && s.totalPolicies == |s.policyList|
  {
    var names := Seqs.Dedup(AllPolicyNames(files, false));
    var violated := Seqs.Dedup(AllPolicyNames(files, true));
    var violationFiles := Seqs.CountTrue(ViolatedFiles(files));
    Summary(|names|, |violated|, names, |files|, |files| - violationFiles, violationFiles, Seqs.Dedup(Paths(files)))
  }

  /** The indices of the violated files. */
  function ViolatedIndices(files: seq<FileResult>): set<nat>
  {
    set i: nat | i < |files| && files[i].violation
  }

  /** The distinct names of the policies (the violated ones, if asked) of
    * all files. */
  function PolicyNameSet(files: seq<FileResult>, violatedOnly: bool): set<string>
  {
    set i, j | 0 <= i < |files| && 0 <= j < |files[i].policies| && (violatedOnly ==> files[i].policies[j].violation)
      :: files[i].policies[j].policyName
  }

  /** The file counts: not-validated is the number of violated files,
    * validated the rest, and none is not-validated exactly when no file is
    * violated. */
  lemma SummaryFileCounts(files: seq<FileResult>)
    ensures FromFiles(files).notValidated == |ViolatedIndices(files)|
    ensures FromFiles(files).validated >= 0
    ensures FromFiles(files).validated + FromFiles(files).notValidated == |files|
    ensures FromFiles(files).notValidated == 0 <==> forall i :: 0 <= i < |files| ==> !files[i].violation
  {
    var bs := ViolatedFiles(files);
    assert forall i :: 0 <= i < |files| ==> bs[i] == files[i].violation;
    Seqs.CountTrueCard(bs);
    assert (set i | 0 <= i < |bs| && bs[i]) == ViolatedIndices(files);
  }

  /** Whether some file holds a policy of this name is membership in the
    * name set. */
  lemma PolicyNameSetMembers(files: seq<FileResult>, violatedOnly: bool)
    ensures forall n :: n in PolicyNameSet(files, violatedOnly) <==> HasPolicy(files, n, violatedOnly)
  {
    forall n | HasPolicy(files, n, violatedOnly)
      ensures n in PolicyNameSet(files, violatedOnly)
    {
      var i, j :| 0 <= i < |files| && 0 <= j < |files[i].policies| &&
        files[i].policies[j].policyName == n && (violatedOnly ==> files[i].policies[j].violation);
    }
  }

  /** The names the summary loop visits are exactly the name set. */
  lemma AllPolicyNamesSet(files: seq<FileResult>, violatedOnly: bool)
    ensures (set n | n in AllPolicyNames(files, violatedOnly)) == PolicyNameSet(files, violatedOnly)
  {
    PolicyNameSetMembers(files, violatedOnly);
  }

  /** The policy list names every policy of every file once, in the order
    * the summary loop first meets them. */
  lemma SummaryPolicies(files: seq<FileResult>)
    ensures Seqs.NoDup(FromFiles(files).policyList)
    ensures forall n :: n in FromFiles(files).policyList <==> HasPolicy(files, n, false)
    ensures Seqs.InFirstSeenOrder(FromFiles(files).policyList, AllPolicyNames(files, false))
  {
    Seqs.DedupFirstSeenOrder(AllPolicyNames(files, false));
  }

  /** total_policies counts the distinct policy names and
    * violation_detected the distinct names of violated policies; the latter
    * is zero exactly when no policy is violated. */
  lemma SummaryPolicyCounts(files: seq<FileResult>)
    ensures FromFiles(files).totalPolicies == |PolicyNameSet(files, false)|
    ensures FromFiles(files).violationDetected == |PolicyNameSet(files, true)|
    ensures FromFiles(files).violationDetected <= FromFiles(files).totalPolicies
    ensures FromFiles(files).violationDetected == 0 <==> forall n :: !HasPolicy(files, n, true)
  {
    var all := AllPolicyNames(files, false);
    var allViolated := AllPolicyNames(files, true);
    Seqs.DedupCard(all);
    Seqs.DedupCard(allViolated);
    AllPolicyNamesSet(files, false);
    AllPolicyNamesSet(files, true);
    var names := Seqs.Dedup(all);
    var violated := Seqs.Dedup(allViolated);
    assert forall n :: n in violated ==> n in names;
    SubsetNoDupShorter(violated, names);
    if |violated| > 0 {
      assert violated[0] in violated;
    }
  }

  /** The file list names every file path once. */
  lemma SummaryFileList(files: seq<FileResult>)
    ensures Seqs.NoDup(FromFiles(files).fileList)
    ensures forall p :: p in FromFiles(files).fileList <==> p in Paths(files)
  {
  }

  /** A duplicate-free list drawn from another duplicate-free list is no
    * longer than it. */
  lemma {:induction false} SubsetNoDupShorter(xs: seq<string>, ys: seq<string>)
    requires Seqs.NoDup(xs) && Seqs.NoDup(ys)
    requires forall x :: x in xs ==> x in ys
    ensures |xs| <= |ys|
    decreases |xs|
  {
    if |xs| > 0 {
      var x := xs[0];
      assert x in xs;
      var k :| 0 <= k < |ys| && ys[k] == x;
      var ys' := ys[..k] + ys[k + 1..];
      assert forall i :: 0 <= i < |ys'| ==> ys'[i] == (if i < k then ys[i] else ys[i + 1]);
      assert Seqs.NoDup(ys');
      forall z | z in xs[1..]
        ensures z in ys'
      {
        var m :| 0 <= m < |xs[1..]| && xs[1..][m] == z;
        assert z == xs[m + 1] && z != x;
        assert z in xs;
        var i :| 0 <= i < |ys| && ys[i] == z;
        if i < k { assert ys'[i] == z; } else { assert ys'[i - 1] == z; }
      }
      SubsetNoDupShorter(xs[1..], ys');
    }
  }

  /** When paths are unique the summary lists them in file order. */
  lemma FileListInOrder(files: seq<FileResult>)
    requires Seqs.NoDup(Paths(files))
    ensures FromFiles(files).fileList == Paths(files)
  {
    Seqs.DedupNoDup(Paths(files));
  }

  // ---------------------------------------------------------------------
  // Evaluation results

  datatype SingleResult = SingleResult(
    targetType: string,
    targetName: string,
    filepath: string,
    policyName: string,
    validation: Validation,
    actionType: ActionKind,
    targetTypeMatched: bool,
    detail: PyDict.Dict<string, Json.Json>,
    lines: Lines,
    metadata: PyDict.Dict<string, Json.Json>)

  datatype EvaluationResult = EvaluationResult(summary: Option<Summary>, files: seq<FileResult>)

  const EmptyResult := EvaluationResult(None, [])

  /** Paths are unique, each file is consistent, and the summary is present
    * exactly when there are files and then describes them. */
  predicate WellFormed(er: EvaluationResult)
  {
    && Seqs.NoDup(Paths(er.files))
    && (forall i :: 0 <= i < |er.files| ==> FileConsistent(er.files[i]))
    && (if |er.files| == 0 then er.summary.None? else er.summary == Some(FromFiles(er.files)))
  }

  /** EvaluationResult.get_file_result: the index of the first file so named. */
  function FileIndex(files: seq<FileResult>, path: string): (r: Option<nat>)
    ensures r.None? <==> path !in Paths(files)
    ensures r.Some? ==> r.value < |files| && files[r.value].path == path
    ensures r.Some? ==> forall j :: 0 <= j < r.value ==> files[j].path != path
  {
    if |files| == 0 then None
    else if files[|files| - 1].path == path then
      match FileIndex(files[..|files| - 1], path)
      case Some(i) => Some(i)
      case None => Some(|files| - 1)
    else FileIndex(files[..|files| - 1], path)
  }

  function TotalTargets(files: seq<FileResult>): nat
  {
    if |files| == 0 then 0 else TotalTargets(files[..|files| - 1]) + TargetsIn(files[|files| - 1].policies)
  }

  lemma {:induction false} TotalTargetsUpdate(files: seq<FileResult>, i: nat, f: FileResult)
    requires i < |files|
    ensures TotalTargets(files[i := f]) == TotalTargets(files) - TargetsIn(files[i].policies) + TargetsIn(f.policies)
  {
    var n := |files|;
    if i < n - 1 {
      TotalTargetsUpdate(files[..n - 1], i, f);
      assert files[i := f][..n - 1] == files[..n - 1][i := f];
    } else {
      assert files[i := f][..n - 1] == files[..n - 1];
    }
  }

  lemma PathsUpdate(files: seq<FileResult>, i: nat, f: FileResult)
    requires i < |files| && f.path == files[i].path
    ensures Paths(files[i := f]) == Paths(files)
  {
  }

  lemma PathsSnoc(files: seq<FileResult>, f: FileResult)
    ensures Paths(files + [f]) == Paths(files) + [f.path]
  {
    assert (files + [f])[..|files|] == files;
  }

  /** The message a detail carries: its "message" entry, or "" without one.
    * The engines store a string there or nothing. */
  function MessageOf(detail: PyDict.Dict<string, Json.Json>): string
  {
    var m := PyDict.Get(detail, "message");
    if m.Some? && m.value.JStr? then m.value.s else ""
  }

  /** The report an evaluation result passes down to a file. */
  function ReportOf(sr: SingleResult): Report
  {
    Report(sr.validation, sr.actionType, MessageOf(sr.detail), sr.targetTypeMatched,
           sr.policyName, sr.targetType, sr.targetName, sr.lines)
  }

  /** The file list after a report: the file with that path receives it, or
    * a new file (with the report's metadata) is appended at the end. */
  function AddToFiles(files: seq<FileResult>, sr: SingleResult): seq<FileResult>
  {
    match FileIndex(files, sr.filepath)
    case Some(i) => files[i := AddPolicyResult(files[i], ReportOf(sr))]
    case None => files + [AddPolicyResult(FileResult(sr.filepath, false, [], sr.metadata), ReportOf(sr))]
  }

  /** EvaluationResult.add_single_result: the summary is recomputed after
    * every report. */
  function AddSingleResult(er: EvaluationResult, sr: SingleResult): (r: EvaluationResult)
    ensures r.files == AddToFiles(er.files, sr)
    ensures r.summary.Some?
  {
    var files := AddToFiles(er.files, sr);
    EvaluationResult(Some(FromFiles(files)), files)
  }

  /** A report reaches the file with its path; a new path is appended, and
    * files already present keep their place, their metadata and their
    * violation flag once set. */
  lemma AddSingleResultFiles(er: EvaluationResult, sr: SingleResult)
    ensures Paths(AddSingleResult(er, sr).files) ==
      if sr.filepath in Paths(er.files) then Paths(er.files) else Paths(er.files) + [sr.filepath]
    ensures forall i :: 0 <= i < |er.files| ==> AddSingleResult(er, sr).files[i].metadata == er.files[i].metadata
    ensures forall i :: 0 <= i < |er.files| && er.files[i].violation ==> AddSingleResult(er, sr).files[i].violation
  {
    AddToFilesSpec(er.files, sr);
  }

  lemma AddToFilesSpec(files: seq<FileResult>, sr: SingleResult)
    ensures Paths(AddToFiles(files, sr)) ==
      if sr.filepath in Paths(files) then Paths(files) else Paths(files) + [sr.filepath]
    ensures forall i :: 0 <= i < |files| ==> AddToFiles(files, sr)[i].metadata == files[i].metadata
    ensures forall i :: 0 <= i < |files| && files[i].violation ==> AddToFiles(files, sr)[i].violation
  {
    match FileIndex(files, sr.filepath)
    case Some(i) =>
      var f := AddPolicyResult(files[i], ReportOf(sr));
      assert AddToFiles(files, sr) == files[i := f];
      UpdateFileKeeps(files, i, f);
    case None =>
      var f := AddPolicyResult(FileResult(sr.filepath, false, [], sr.metadata), ReportOf(sr));
      assert AddToFiles(files, sr) == files + [f];
      AppendFileKeeps(files, f);
  }

  /** Whether policy j of file i is present and violated. */
  predicate PolicyViolated(files: seq<FileResult>, i: nat, j: nat)
  {
    i < |files| && j < |files[i].policies| && files[i].policies[j].violation
  }

  /** A report never clears a policy's violation flag: the policy keeps its
    * file, its slot and its name, and stays violated. */
  lemma AddSingleResultKeepsPolicyViolation(er: EvaluationResult, sr: SingleResult, i: nat, j: nat)
    requires PolicyViolated(er.files, i, j)
    ensures PolicyViolated(AddSingleResult(er, sr).files, i, j)
    ensures AddSingleResult(er, sr).files[i].policies[j].policyName == er.files[i].policies[j].policyName
  {
    var files := er.files;
    match FileIndex(files, sr.filepath)
    case Some(k) =>
      if k == i {
        AddToPoliciesKeepsViolation(files[i].policies, ReportOf(sr));
      }
    case None =>
      assert AddSingleResult(er, sr).files[i] == files[i];
  }

  lemma UpdateFileKeeps(files: seq<FileResult>, i: nat, f: FileResult)
    requires i < |files| && f.path == files[i].path && f.metadata == files[i].metadata
    requires files[i].violation ==> f.violation
    ensures Paths(files[i := f]) == Paths(files)
    ensures forall j :: 0 <= j < |files| ==> files[i := f][j].metadata == files[j].metadata
    ensures forall j :: 0 <= j < |files| && files[j].violation ==> files[i := f][j].violation
  {
    PathsUpdate(files, i, f);
  }

  lemma AppendFileKeeps(files: seq<FileResult>, f: FileResult)
    ensures Paths(files + [f]) == Paths(files) + [f.path]
    ensures forall j :: 0 <= j < |files| ==> (files + [f])[j] == files[j]
  {
    PathsSnoc(files, f);
  }

  /** Exactly one target is recorded for a report whose target type matched. */
  lemma AddSingleResultTargets(er: EvaluationResult, sr: SingleResult)
    ensures TotalTargets(AddSingleResult(er, sr).files) == TotalTargets(er.files) + (if sr.targetTypeMatched then 1 else 0)
  {
    match FileIndex(er.files, sr.filepath)
    case Some(i) =>
      AddPolicyResultTargets(er.files[i], ReportOf(sr));
      TotalTargetsUpdate(er.files, i, AddPolicyResult(er.files[i], ReportOf(sr)));
    case None =>
      var f := AddPolicyResult(FileResult(sr.filepath, false, [], sr.metadata), ReportOf(sr));
      AddPolicyResultTargets(FileResult(sr.filepath, false, [], sr.metadata), ReportOf(sr));
      var files := er.files + [f];
      assert files[..|files| - 1] == er.files;
  }

  /** add_single_result keeps a result well formed. */
  lemma AddSingleResultWellFormed(er: EvaluationResult, sr: SingleResult)
    requires WellFormed(er)
    ensures WellFormed(AddSingleResult(er, sr))
  {
    AddSingleResultFiles(er, sr);
    var r := AddSingleResult(er, sr);
    var files := r.files;
    assert Seqs.NoDup(Paths(files)) by {
      var ps := Paths(er.files);
      if sr.filepath !in ps {
        Seqs.NoDupSnoc(ps, sr.filepath);
      }
    }
    assert |files| > 0;
    forall j | 0 <= j < |files|
      ensures FileConsistent(files[j])
    {
      AddFilesConsistent(er.files, sr, j);
    }
  }

  lemma AddFilesConsistent(files: seq<FileResult>, sr: SingleResult, j: nat)
    requires forall i :: 0 <= i < |files| ==> FileConsistent(files[i])
    requires j < |AddToFiles(files, sr)|
    ensures FileConsistent(AddToFiles(files, sr)[j])
  {
    match FileIndex(files, sr.filepath)
    case Some(i) =>
      if j == i {
        AddPolicyResultConsistent(files[i], ReportOf(sr));
      }
    case None =>
      if j == |files| {
        var f0 := FileResult(sr.filepath, false, [], sr.metadata);
        assert FileConsistent(f0);
        AddPolicyResultConsistent(f0, ReportOf(sr));
      }
  }
}
