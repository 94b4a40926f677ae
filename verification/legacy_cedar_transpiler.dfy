// The older policybook_cedar PolicyTranspiler: the same action template as
// the newer transpiler, but None matchers have no .get, an omitted resource
// keeps a trailing comma, and a resource dict without `is`/`in` is printed
// as a dict. The module imports an expression transpiler that does not
// exist, so its condition renderer is the parameter `trace` here.

module LegacyCedarTranspiler {
  import opened Wrappers
  import Text
  import Tokens
  import opened Policybook
  import PyDict
  import Json
  import opened CedarExpression
  import CedarTranspiler
  import LegacyCedarModel

  /** principal: None and lists are not strings and have no .get; every
    * other form renders as in the newer transpiler ("" matches any
    * principal, a string is an equality, a dict is `is T in V`, `in V` or
    * `is T`). */
  function PrincipalRule(arg: RoleArg): (r: Result<string>)
    ensures r.Err? <==> arg.RoleNull? || arg.RoleList?
    ensures r.Err? ==> r.error.AttributeError?
    ensures arg == RoleStr("") ==> r == Ok("principal,")
    ensures r.Ok? ==> r == CedarTranspiler.RoleRule("principal", ",", arg)
  {
    assert "principal" + "," == "principal,";
    if arg.RoleNull? then Err(AttributeError("'NoneType' object has no attribute 'get'"))
    else CedarTranspiler.RoleRule("principal", ",", arg)
  }

  /** action: None has no .get; every other form renders as in the newer
    * transpiler. */
  function ActionRule(arg: ActionArg): (r: Result<string>)
    ensures r.Err? <==> arg.ActNull?
    ensures r.Err? ==> r.error.AttributeError?
    ensures r.Ok? ==> r.value == CedarTranspiler.ActionRule(arg)
  {
    if arg.ActNull? then Err(AttributeError("'NoneType' object has no attribute 'get'"))
    else Ok(CedarTranspiler.ActionRule(arg))
  }

  /** resource: None has no .get; "" renders "resource," with a comma; a
    * dict with neither `is` nor `in` renders as `resource == <dict>`, where
    * `dictText` is str() of that dict; every other form renders as in the
    * newer transpiler. */
  function ResourceRule(arg: RoleArg, dictText: string): (r: Result<string>)
    ensures r.Err? <==> arg.RoleNull? || arg.RoleList?
    ensures r.Err? ==> r.error.AttributeError?
    ensures arg == RoleStr("") ==> r == Ok("resource,")
    ensures arg == RoleDict("", "") ==> r == Ok("resource == " + dictText)
  {
    if arg.RoleNull? then Err(AttributeError("'NoneType' object has no attribute 'get'"))
    else if arg == RoleStr("") then Ok("resource,")
    else if arg == RoleDict("", "") then Ok("resource == " + dictText)
    else CedarTranspiler.RoleRule("resource", "", arg)
  }

  /** PolicyTranspiler.action_to_rule: the kind check, then principal,
    * action and resource, in that order, inside the shared template. */
  function ActionToRule(a: PolicyAction, validActions: seq<string>, dictText: string): (r: Result<string>)
    ensures a.kind !in validActions ==> r == Err(UnsupportedAction(a.kind, validActions))
    ensures r.Ok? <==> a.kind in validActions && !a.args.principal.RoleNull? && !a.args.principal.RoleList?
                       && !a.args.action.ActNull? && !a.args.resource.RoleNull? && !a.args.resource.RoleList?
  {
    if a.kind !in validActions then Err(UnsupportedAction(a.kind, validActions))
    else
      var principal :- PrincipalRule(a.args.principal);
      var action :- ActionRule(a.args.action);
      var resource :- ResourceRule(a.args.resource, dictText);
      Ok(CedarTranspiler.MakeAction(a.kind, [principal, action, resource]))
  }

  /** A principal the two transpilers read alike: a non-empty string or a
    * dict. */
  predicate PrincipalGiven(arg: RoleArg)
  {
    (arg.RoleStr? && arg.s != "") || arg.RoleDict?
  }

  /** A resource the two transpilers read alike: a non-empty string or a
    * dict naming `is` or `in`. */
  predicate ResourceGiven(arg: RoleArg)
  {
    (arg.RoleStr? && arg.s != "") || (arg.RoleDict? && (arg.isType != "" || arg.inValue != ""))
  }

  /** On matchers that are actually given, the older transpiler writes the
    * same rule as the newer one. */
  lemma AgreesWhenGiven(a: PolicyAction, validActions: seq<string>, dictText: string)
    requires PrincipalGiven(a.args.principal) && !a.args.action.ActNull? && ResourceGiven(a.args.resource)
    ensures ActionToRule(a, validActions, dictText) == CedarTranspiler.ActionToRule(a, validActions)
  {
  }

  /** A wildcard principal and action render alike in both transpilers; only
    * the resource line differs, by its trailing comma. */
  lemma WildcardDiffersOnlyInResource(a: PolicyAction, validActions: seq<string>, dictText: string)
    requires a.kind in validActions
    requires a.args.principal == RoleStr("") && a.args.action == ActStr("") && a.args.resource == RoleStr("")
    ensures ActionToRule(a, validActions, dictText) == Ok(CedarTranspiler.MakeAction(a.kind, ["principal,", "action,", "resource,"]))
    ensures CedarTranspiler.ActionToRule(a, validActions) == Ok(CedarTranspiler.MakeAction(a.kind, ["principal,", "action,", "resource"]))
  {
    assert "principal" + "," == "principal,";
    assert "resource" + "" == "resource";
  }

  /** The older transpiler on the omitted-matchers vector: the resource line
    * keeps its comma. */
  lemma OmittedMatchersCounterexample(validActions: seq<string>)
    requires CedarTranspiler.Permit in validActions
    ensures ActionToRule(PolicyAction(CedarTranspiler.Permit, ActionArgs(RoleStr(""), ActStr(""), RoleStr(""), "")), validActions, "{}")
      == Ok(Text.Join(["", "permit(", "    principal,", "    action,", "    resource,", ")"], "\n"))
    ensures ActionToRule(PolicyAction(CedarTranspiler.Permit, ActionArgs(RoleStr(""), ActStr(""), RoleStr(""), "")), validActions, "{}")
      != CedarTranspiler.ActionToRule(PolicyAction(CedarTranspiler.Permit, ActionArgs(RoleStr(""), ActStr(""), RoleStr(""), "")), validActions)
  {
    assert "    " + "principal," == "    principal,";
    assert "    " + "action," == "    action,";
    assert "    " + "resource," == "    resource,";
    assert CedarTranspiler.Permit + "(" == "permit(";
    CedarTranspiler.MakeActionLines(CedarTranspiler.Permit, "principal,", "action,", "resource,");
    CedarTranspiler.WildcardExamples(validActions);
    var lines := ["", "permit(", "    principal,", "    action,", "    resource,", ")"];
    var want := ["", "permit(", "    principal,", "    action,", "    resource", ")"];
    JoinedLinesDiffer(lines, want, 4);
  }

  /** Two equally long lists of lines that differ only at line k, where
    * the first is one character longer, join to different texts. */
  lemma JoinedLinesDiffer(a: seq<string>, b: seq<string>, k: nat)
    requires |a| == |b| && k < |a|
    requires forall i :: 0 <= i < |a| && i != k ==> a[i] == b[i]
    requires |a[k]| == |b[k]| + 1
    ensures Text.Join(a, "\n") != Text.Join(b, "\n")
  {
    JoinLength(a);
    JoinLength(b);
    SumLengthsDiffer(a, b, k);
  }

  function SumLengths(ls: seq<string>): nat
  {
    if |ls| == 0 then 0 else |ls[0]| + SumLengths(ls[1..])
  }

  lemma {:induction false} SumLengthsDiffer(a: seq<string>, b: seq<string>, k: nat)
    requires |a| == |b| && k < |a|
    requires forall i :: 0 <= i < |a| && i != k ==> a[i] == b[i]
    requires |a[k]| == |b[k]| + 1
    ensures SumLengths(a) == SumLengths(b) + 1
  {
    if k == 0 {
      assert a[1..] == b[1..];
    } else {
      SumLengthsDiffer(a[1..], b[1..], k - 1);
    }
  }

  lemma {:induction false} JoinLength(ls: seq<string>)
    requires |ls| > 0
    ensures |Text.Join(ls, "\n")| == SumLengths(ls) + |ls| - 1
  {
    if |ls| > 1 {
      JoinLength(ls[1..]);
    }
  }

  /** The older transpiler on the all-None vector: None has no .get. */
  lemma NoneMatchersCounterexample(validActions: seq<string>)
    requires CedarTranspiler.Permit in validActions
    ensures ActionToRule(PolicyAction(CedarTranspiler.Permit, ActionArgs(RoleNull, ActNull, RoleNull, "")), validActions, "{}").Err?
    ensures CedarTranspiler.ActionToRule(PolicyAction(CedarTranspiler.Permit, ActionArgs(RoleNull, ActNull, RoleNull, "")), validActions).Ok?
  {
  }

  /** The loop over a policy's actions, as in the newer transpiler. */
  function ActionFuncs(actions: seq<PolicyAction>, validActions: seq<string>, dictText: string, acc: string): (r: Result<string>)
    decreases |actions|
  {
    if |actions| == 0 then Ok(acc)
    else
      var f :- ActionToRule(actions[0], validActions, dictText);
      ActionFuncs(actions[1..], validActions, dictText, if acc == "" then f else acc + f)
  }

  predicate AllGiven(actions: seq<PolicyAction>)
  {
    forall i :: 0 <= i < |actions| ==>
      PrincipalGiven(actions[i].args.principal) && !actions[i].args.action.ActNull?
      && ResourceGiven(actions[i].args.resource)
  }

  /** With every matcher given, the two loops produce the same text. */
  lemma {:induction false} ActionFuncsAgree(actions: seq<PolicyAction>, validActions: seq<string>, dictText: string, acc: string)
    requires AllGiven(actions)
    ensures ActionFuncs(actions, validActions, dictText, acc) == CedarTranspiler.ActionFuncs(actions, validActions, acc)
    decreases |actions|
  {
    if |actions| > 0 {
      AgreesWhenGiven(actions[0], validActions, dictText);
      var f := ActionToRule(actions[0], validActions, dictText);
      if f.Ok? {
        ActionFuncsAgree(actions[1..], validActions, dictText, if acc == "" then f.value else acc + f.value);
      }
    }
  }

  /** One written file: its name and its Cedar text. */
  datatype CedarFile = CedarFile(fileName: string, content: string)

  /** One entry of `policies`: the name first (KeyError when missing), then
    * the condition, the exception and the actions. The expression
    * transpiler is a parameter. */
  function TranspilePolicy(pol: PolicyAst, vars: PyDict.Dict<string, Json.Json>, validActions: seq<string>,
                           dictText: string, trace: Option<Cond> -> Result<Body>): (r: Result<LegacyCedarModel.LegacyCedarPolicy>)
    ensures pol.name.None? ==> r.Err? && r.error.KeyError?
    ensures r.Ok? ==> r.value.package == Tokens.CleanErrorToken(pol.name.value)
    ensures r.Ok? ==> r.value.tags == pol.tags && r.value.target == pol.target && r.value.vars == vars
    ensures r.Ok? ==> trace(pol.condition) == Ok(r.value.condition) && trace(pol.exception) == Ok(r.value.exception)
    ensures r.Ok? ==> ActionFuncs(pol.actions, validActions, dictText, "") == Ok(r.value.actionFunc)
  {
    var name :- if pol.name.None? then Err(KeyError("name")) else Ok(pol.name.value);
    var cond :- trace(pol.condition);
    var exc :- trace(pol.exception);
    var actions :- ActionFuncs(pol.actions, validActions, dictText, "");
    Ok(LegacyCedarModel.LegacyCedarPolicy(Tokens.CleanErrorToken(name), cond, exc, actions, vars, pol.tags, pol.target))
  }

  function TranspileAll(pols: seq<PolicyAst>, vars: PyDict.Dict<string, Json.Json>, validActions: seq<string>,
                        dictText: string, trace: Option<Cond> -> Result<Body>): (r: Result<seq<LegacyCedarModel.LegacyCedarPolicy>>)
    ensures r.Ok? ==> |r.value| == |pols|
    ensures r.Ok? ==> forall i :: 0 <= i < |pols| ==> TranspilePolicy(pols[i], vars, validActions, dictText, trace) == Ok(r.value[i])
    ensures r.Err? ==> exists i :: 0 <= i < |pols| && TranspilePolicy(pols[i], vars, validActions, dictText, trace).Err?
    decreases |pols|
  {
    if |pols| == 0 then Ok([])
    else
      var head :- TranspilePolicy(pols[0], vars, validActions, dictText, trace);
      var tail :- TranspileAll(pols[1..], vars, validActions, dictText, trace);
      Ok([head] + tail)
  }

  /** The file written for a policy: `<package>.cedar`. */
  function FileOf(p: LegacyCedarModel.LegacyCedarPolicy): CedarFile
  {
    CedarFile(p.package + ".cedar", LegacyCedarModel.LegacyToCedar(p))
  }

  /** PolicyTranspiler.policyset_to_cedar: every policy is transpiled before
    * any file is written, so one failing policy leaves no file at all;
    * otherwise one file per policy, in order. */
  function PolicysetToCedar(doc: Document, validActions: seq<string>, dictText: string,
                            trace: Option<Cond> -> Result<Body>): (r: Result<seq<CedarFile>>)
    ensures doc.None? ==> r == Err(ValueError("no policy found"))
    ensures doc.Some? && doc.value.name.None? ==> r == Err(ValueError("name field is empty"))
    ensures r.Ok? ==> |r.value| == |doc.value.policies|
    ensures r.Ok? ==> forall i :: 0 <= i < |r.value| ==>
      Text.EndsWith(r.value[i].fileName, ".cedar")
      && doc.value.policies[i].name.Some?
      && r.value[i].fileName == Tokens.CleanErrorToken(doc.value.policies[i].name.value) + ".cedar"
  {
    if doc.None? then Err(ValueError("no policy found"))
    else if doc.value.name.None? then Err(ValueError("name field is empty"))
    else
      var pols :- TranspileAll(doc.value.policies, doc.value.vars, validActions, dictText, trace);
      PackagesNamed(doc.value.policies, doc.value.vars, validActions, dictText, trace, pols);
      Ok(FilesOf(pols))
  }

  /** One `<package>.cedar` file per transpiled policy, in order. */
  function FilesOf(pols: seq<LegacyCedarModel.LegacyCedarPolicy>): (files: seq<CedarFile>)
    ensures |files| == |pols|
    ensures forall i :: 0 <= i < |files| ==>
      files[i].fileName == pols[i].package + ".cedar" && Text.EndsWith(files[i].fileName, ".cedar")
  {
    var files := seq(|pols|, i requires 0 <= i < |pols| => FileOf(pols[i]));
    assert forall i :: 0 <= i < |files| ==> files[i].fileName[|files[i].fileName| - 6..] == ".cedar";
    files
  }

  /** Helper for PolicysetToCedar: every policy transpiled had a name, and
    * its package is that name cleaned. */
  lemma PackagesNamed(ps: seq<PolicyAst>, vars: PyDict.Dict<string, Json.Json>, validActions: seq<string>,
                      dictText: string, trace: Option<Cond> -> Result<Body>, pols: seq<LegacyCedarModel.LegacyCedarPolicy>)
    requires TranspileAll(ps, vars, validActions, dictText, trace) == Ok(pols)
    ensures |pols| == |ps|
    ensures forall i :: 0 <= i < |pols| ==>
      ps[i].name.Some? && pols[i].package == Tokens.CleanErrorToken(ps[i].name.value)
  {
    forall i | 0 <= i < |pols|
      ensures ps[i].name.Some? && pols[i].package == Tokens.CleanErrorToken(ps[i].name.value)
    {
      assert TranspilePolicy(ps[i], vars, validActions, dictText, trace) == Ok(pols[i]);
    }
  }

  /** A written file name carries none of the characters the cleaner
    * rewrites: the cleaned name has none and neither has ".cedar". */
  lemma FileNamesClean(doc: Document, validActions: seq<string>, dictText: string, trace: Option<Cond> -> Result<Body>, i: nat)
    requires PolicysetToCedar(doc, validActions, dictText, trace).Ok?
    requires i < |PolicysetToCedar(doc, validActions, dictText, trace).value|
    ensures var f := PolicysetToCedar(doc, validActions, dictText, trace).value[i].fileName;
      forall k :: 0 <= k < |f| ==> !Tokens.Unclean(f[k])
  {
    CleanFileName(doc.value.policies[i].name.value);
  }

  lemma CleanFileName(name: string)
    ensures var f := Tokens.CleanErrorToken(name) + ".cedar";
      forall k :: 0 <= k < |f| ==> !Tokens.Unclean(f[k])
  {
    Tokens.CleanErrorTokenClean(name);
    CedarSuffixClean();
    CleanConcat(Tokens.CleanErrorToken(name), ".cedar");
  }

  lemma CedarSuffixClean()
    ensures forall k :: 0 <= k < |".cedar"| ==> !Tokens.Unclean(".cedar"[k])
  {
  }

  /** Two texts without characters the rewrite removes make one. */
  lemma CleanConcat(a: string, b: string)
    requires forall k :: 0 <= k < |a| ==> !Tokens.Unclean(a[k])
    requires forall k :: 0 <= k < |b| ==> !Tokens.Unclean(b[k])
    ensures forall k :: 0 <= k < |a + b| ==> !Tokens.Unclean((a + b)[k])
  {
    forall k | 0 <= k < |a + b|
      ensures !Tokens.Unclean((a + b)[k])
    {
      if k >= |a| {
        assert (a + b)[k] == b[k - |a|];
      } else {
        assert (a + b)[k] == a[k];
      }
    }
  }
}
