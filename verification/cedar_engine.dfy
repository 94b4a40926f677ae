// The Cedar engine: which inputs a policy applies to, the allow decision
// read from `cedar authorize`, and the assembly of one evaluation result.
// The backend process and the line-block search are parameters; the read of
// the policy's input file is left out.

module CedarEngine {
  import opened Wrappers
  import Text
  import PyDict
  import Json
  import Models
  import Utils
  import PolicyInput
  import Engines

  /** A task_result input is matched against policies for tasks. */
  function TargetKind(inputType: string): (r: string)
    ensures inputType != "task_result" ==> r == inputType
    ensures r != "task_result"
  {
    if inputType == "task_result" then "task" else inputType
  }

  /** The backend call for one policy file and one serialized input. */
  type Authorize = (string, string) -> Result<PyDict.Dict<string, Json.Json>>

  /** CedarEngine.eval_single_policy: (False, {}) when the policy's target
    * does not match the input type; (True, {}) without consulting the
    * backend when a task's module does not match the policy's target
    * module; otherwise (True, backend result). */
  function EvalSinglePolicy(p: Models.Policy, inputType: string, moduleFqcn: string, inputJson: string,
                            authorize: Authorize): (r: Result<(bool, PyDict.Dict<string, Json.Json>)>)
    ensures !Utils.MatchStr(p.metadata.target, TargetKind(inputType)) ==> r == Ok((false, []))
    ensures (Utils.MatchStr(p.metadata.target, TargetKind(inputType)) && inputType == "task"
             && !Utils.MatchStr(p.metadata.targetModule, moduleFqcn)) ==> r == Ok((true, []))
    ensures r.Ok? && r.value.0 == false ==> r.value.1 == []
    ensures r.Ok? <==> !(Utils.MatchStr(p.metadata.target, TargetKind(inputType))
                         && !(inputType == "task" && !Utils.MatchStr(p.metadata.targetModule, moduleFqcn))
                         && authorize(p.path, inputJson).Err?)
  {
    if !Utils.MatchStr(p.metadata.target, TargetKind(inputType)) then Ok((false, []))
    else if inputType == "task" && !Utils.MatchStr(p.metadata.targetModule, moduleFqcn) then Ok((true, []))
    else
      var result :- authorize(p.path, inputJson);
      Ok((true, result))
  }

  /** The request eval_cedar_policy sends: principal, action and resource
    * strings and the entity list written to the entities file. */
  datatype CedarInput = CedarInput(principal: string, action: string, resource: string, entities: Json.Json)

  const EntitiesPath: string := "/tmp/test.json"

  function AuthorizeCommand(executable: string, policyPath: string, input: CedarInput): string
  {
    executable + " authorize --policies " + policyPath + " --entities " + EntitiesPath
      + " --principal '" + input.principal + "' --action '" + input.action
      + "' --resource '" + input.resource + "'"
  }

  /** The error text of a failed `cedar authorize` run. */
  function AuthorizeFailure(proc: Engines.Proc): (m: string)
    ensures Text.Contains(m, proc.stdout) && Text.Contains(m, proc.stderr)
  {
    var head := "failed to run `cedar authorize` command; error details:\nSTDOUT: ";
    var m := head + proc.stdout + "\nSTDERR: " + proc.stderr;
    assert Text.OccursAt(m, proc.stdout, |head|);
    assert Text.OccursAt(m, proc.stderr, |m| - |proc.stderr|);
    m
  }

  /** eval_cedar_policy: a non-zero exit is a ValueError carrying both
    * streams; otherwise the result is {"allowed": "ALLOW" in stdout}. */
  function EvalCedarPolicy(policyPath: string, input: CedarInput, executable: string,
                           run: string -> Engines.Proc): (r: Result<PyDict.Dict<string, Json.Json>>)
    ensures var proc := run(AuthorizeCommand(executable, policyPath, input));
      (r.Ok? <==> proc.code == 0)
      && (r.Ok? ==> r.value == [("allowed", Json.JBool(Text.Contains(proc.stdout, "ALLOW")))])
      && (r.Err? ==> r.error.ValueError? && Text.Contains(r.error.msg, proc.stdout)
                     && Text.Contains(r.error.msg, proc.stderr))
  {
    var proc := run(AuthorizeCommand(executable, policyPath, input));
    if proc.code != 0 then Err(ValueError(AuthorizeFailure(proc)))
    else Ok([("allowed", Json.JBool(Text.Contains(proc.stdout, "ALLOW")))])
  }

  /** The decision is "allowed" exactly when the output says ALLOW anywhere. */
  lemma AllowInStdoutAllowed(policyPath: string, input: CedarInput, executable: string,
                                run: string -> Engines.Proc, prefix: string, suffix: string)
    requires run(AuthorizeCommand(executable, policyPath, input)) == Engines.Proc(0, prefix + "ALLOW" + suffix, "")
    ensures EvalCedarPolicy(policyPath, input, executable, run) == Ok([("allowed", Json.JBool(true))])
  {
    var out := prefix + "ALLOW" + suffix;
    assert Text.OccursAt(out, "ALLOW", |prefix|);
  }

  /** The object under evaluation as evaluate reads it: its name, its
    * filepath attribute if it has one, and for events the line, the uuid
    * and the whole attribute map. */
  datatype CedarObject = CedarObject(
    name: string,
    filepath: Option<string>,
    line: Json.Json,
    uuid: string,
    attrs: PyDict.Dict<string, Json.Json>)

  /** Where evaluate reports a result: event policies report the event's
    * uuid, its line as {"begin": line, "end": None} and the event's
    * attributes; rest policies report the filepath attribute (or
    * "__no_filepath__") with no lines; any other policy reads the file and,
    * for task and play inputs, reports the block found in it, which must
    * exist. */
  function Location(policyTarget: string, obj: CedarObject, inputType: string,
                    block: Option<PolicyInput.CodeBlock>): (r: Result<(string, Models.Lines, PyDict.Dict<string, Json.Json>)>)
    ensures policyTarget == Models.Event ==>
      r == Ok((obj.uuid, [("begin", obj.line), ("end", Json.JNull)], obj.attrs))
    ensures policyTarget != Models.Event ==> r.Ok? ==>
      r.value.0 == obj.filepath.GetOr("__no_filepath__") && r.value.2 == []
    ensures r.Err? <==>
      policyTarget != Models.Event && policyTarget != Models.Rest
      && (inputType == Models.Task || inputType == Models.Play) && block.None?
  {
    var filepath := obj.filepath.GetOr("__no_filepath__");
    if policyTarget == Models.Event then
      Ok((obj.uuid, [("begin", obj.line), ("end", Json.JNull)], obj.attrs))
    else if policyTarget == Models.Rest then Ok((filepath, [], []))
    else if inputType == Models.Task || inputType == Models.Play then
      match block
      case None => Err(AttributeError("'NoneType' object has no attribute 'to_dict'"))
      case Some(b) => Ok((filepath, PolicyInput.ToDict(b), []))
    else Ok((filepath, [], []))
  }

  /** CedarEngine.evaluate: save the policy if it has no file (under
    * <workdir>/<package>.cedar), locate the object, evaluate it and turn the
    * raw result into a verdict.  The policy name is the policy's path. */
  function Evaluate(p: Models.Policy, obj: CedarObject, inputType: string, moduleFqcn: string,
                    inputJson: string, workdir: string, block: Option<PolicyInput.CodeBlock>,
                    authorize: Authorize): (r: Result<(Models.Policy, Models.SingleResult)>)
    ensures r.Ok? ==> r.value.0 == Engines.SaveIfUnsaved(p, workdir, ".cedar")
    ensures r.Ok? ==> r.value.1.policyName == r.value.0.path && r.value.1.targetType == inputType
    ensures r.Ok? ==> r.value.1.targetTypeMatched == Utils.MatchStr(p.metadata.target, TargetKind(inputType))
    ensures r.Ok? && !r.value.1.targetTypeMatched ==>
      r.value.1.validation == Models.NoVerdict && r.value.1.actionType == Models.NoAction
    ensures r.Ok? && r.value.1.targetTypeMatched ==> r.value.1.validation != Models.NoVerdict
    ensures r.Ok? && !r.value.1.targetTypeMatched ==> r.value.1.detail == []
    ensures r.Ok? && r.value.1.targetTypeMatched && (inputType != Models.Task || Utils.MatchStr(p.metadata.targetModule, moduleFqcn)) ==>
      authorize(r.value.0.path, inputJson) == Ok(r.value.1.detail)
  {
    var saved := Engines.SaveIfUnsaved(p, workdir, ".cedar");
    var loc :- Location(p.metadata.target, obj, inputType, block);
    var single :- EvalSinglePolicy(saved, inputType, moduleFqcn, inputJson, authorize);
    var validation :- Models.ValidationOf(single.1, single.0);
    var action :- Models.ActionOf(single.1, single.0);
    Ok((saved, Models.SingleResult(inputType, obj.name, loc.0, saved.path, validation, action, single.0,
                                   single.1, loc.1, loc.2)))
  }

  /** A policy for another target type gives no verdict and no action, and
    * the backend is never consulted. */
  lemma TargetMismatchNoVerdict(p: Models.Policy, obj: CedarObject, inputType: string, moduleFqcn: string,
                                inputJson: string, workdir: string, block: Option<PolicyInput.CodeBlock>,
                                authorize1: Authorize, authorize2: Authorize)
    requires !Utils.MatchStr(p.metadata.target, TargetKind(inputType))
    requires Location(p.metadata.target, obj, inputType, block).Ok?
    ensures var r := Evaluate(p, obj, inputType, moduleFqcn, inputJson, workdir, block, authorize1);
      r.Ok? && r.value.1.validation == Models.NoVerdict && r.value.1.actionType == Models.NoAction
      && !r.value.1.targetTypeMatched
    ensures Evaluate(p, obj, inputType, moduleFqcn, inputJson, workdir, block, authorize1)
         == Evaluate(p, obj, inputType, moduleFqcn, inputJson, workdir, block, authorize2)
  {
  }

  /** A task whose module is not the policy's target module passes without
    * a backend call. */
  lemma ModuleMismatchSucceeds(p: Models.Policy, obj: CedarObject, moduleFqcn: string,
                               inputJson: string, workdir: string, block: Option<PolicyInput.CodeBlock>,
                               authorize: Authorize)
    requires Utils.MatchStr(p.metadata.target, Models.Task)
    requires !Utils.MatchStr(p.metadata.targetModule, moduleFqcn)
    requires Location(p.metadata.target, obj, Models.Task, block).Ok?
    ensures var r := Evaluate(p, obj, Models.Task, moduleFqcn, inputJson, workdir, block, authorize);
      r.Ok? && r.value.1.validation == Models.Success && r.value.1.actionType == Models.NoAction
      && r.value.1.targetTypeMatched
  {
    var saved := Engines.SaveIfUnsaved(p, workdir, ".cedar");
    assert EvalSinglePolicy(saved, Models.Task, moduleFqcn, inputJson, authorize) == Ok((true, []));
    assert Models.EvalValue([]) == Json.JObj([]);
    Models.ValidationOfObject([]);
    Models.ActionOfObject([]);
  }

  /** A task_result input is checked against task policies but never
    * against the target module: a matching policy always reaches the
    * backend. */
  lemma TaskResultReachesBackend(p: Models.Policy, moduleFqcn: string, inputJson: string, authorize: Authorize)
    requires Utils.MatchStr(p.metadata.target, Models.Task)
    requires authorize(p.path, inputJson).Ok?
    ensures EvalSinglePolicy(p, "task_result", moduleFqcn, inputJson, authorize)
         == Ok((true, authorize(p.path, inputJson).value))
  {
  }

  /** The backend's decision lives under "allowed", not under "value", so a
    * matched evaluation whose backend answered like eval_cedar_policy is a
    * success whatever the decision was. */
  lemma DecisionNotInVerdict(allowed: bool)
    ensures Models.ValidationOf([("allowed", Json.JBool(allowed))], true) == Ok(Models.Success)
    ensures Models.ActionOf([("allowed", Json.JBool(allowed))], true) == Ok(Models.NoAction)
  {
    var raw := [("allowed", Json.JBool(allowed))];
    assert Models.EvalValue(raw) == Json.JObj([]);
    Models.ValidationOfObject(raw);
    Models.ActionOfObject(raw);
  }
}
