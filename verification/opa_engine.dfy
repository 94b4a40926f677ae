// OPAEngine: package discovery in a Rego file, the `opa eval` call and the
// checks on its decoded output, and evaluate. The process and json.loads
// are parameters.

module OpaEngine {
  import opened Wrappers
  import Text
  import PyDict
  import Json
  import Models
  import opened Engines

  const PackagePrefix: string := "package "

  predicate IsPackageLine(line: string)
  {
    Text.StartsWith(Text.Strip(line), PackagePrefix)
  }

  /** The first index holding true. */
  function FirstTrue(bs: seq<bool>): (r: Option<nat>)
    ensures r.Some? ==> r.value < |bs| && bs[r.value] && forall j :: 0 <= j < r.value ==> !bs[j]
    ensures r.None? ==> forall j :: 0 <= j < |bs| ==> !bs[j]
  {
    if |bs| == 0 then None
    else if bs[0] then Some(0)
    else
      var rest := FirstTrue(bs[1..]);
      if rest.None? then None else Some(rest.value + 1)
  }

  /** The first line whose stripped text starts with "package ". */
  function FirstPackageLine(lines: seq<string>): (r: Option<nat>)
    ensures r.Some? ==> r.value < |lines| && IsPackageLine(lines[r.value])
    ensures r.Some? ==> forall j :: 0 <= j < r.value ==> !IsPackageLine(lines[j])
    ensures r.None? ==> forall j :: 0 <= j < |lines| ==> !IsPackageLine(lines[j])
  {
    var flags := seq(|lines|, i requires 0 <= i < |lines| => IsPackageLine(lines[i]));
    assert forall j :: 0 <= j < |lines| ==> flags[j] == IsPackageLine(lines[j]);
    FirstTrue(flags)
  }

  /** get_rego_main_package_name: the rest of the first package line, or "". */
  function PackageName(lines: seq<string>): (r: string)
    ensures FirstPackageLine(lines).Some? ==> Text.Strip(lines[FirstPackageLine(lines).value]) == PackagePrefix + r
    ensures r == "" <==> FirstPackageLine(lines).None?
  {
    match FirstPackageLine(lines)
    case None => ""
    case Some(i) =>
      PackageLineHasName(lines[i]);
      Text.Strip(lines[i])[|PackagePrefix|..]
  }

  /** A package line names something: its stripped text cannot end with
    * the prefix's space. */
  lemma PackageLineHasName(line: string)
    requires IsPackageLine(line)
    ensures |Text.Strip(line)| > |PackagePrefix|
    ensures Text.Strip(line) == PackagePrefix + Text.Strip(line)[|PackagePrefix|..]
  {
    var s := Text.Strip(line);
    assert s[|PackagePrefix| - 1] == ' ';
    assert s[..|PackagePrefix|] == PackagePrefix;
  }

  /** The package name of a file's text. Line iteration keeps the newline,
    * which the strip removes, so splitting on '\n' reads the same lines. */
  function PackageOfText(text: string): string
  {
    PackageName(Text.Split(text, '\n'))
  }

  /** `--data <path>` for the external data, only when a path is given. */
  function ExternalOption(external: string): (r: string)
    ensures r == "" <==> external == ""
    ensures external != "" ==> Text.EndsWith(r, external)
  {
    if external == "" then "" else "--data " + external
  }

  /** The `opa eval` command line. */
  function Command(regoPath: string, external: string, package: string): string
  {
    "opa eval --data " + regoPath + " " + ExternalOption(external) + " --stdin-input 'data." + package + "'"
  }

  function ExitMessage(p: Proc): (m: string)
    ensures Text.Contains(m, p.stdout) && Text.Contains(m, p.stderr)
  {
    var head := "failed to run `opa eval` command; error details:\nSTDOUT: ";
    var m := head + p.stdout + "\nSTDERR: " + p.stderr;
    assert Text.OccursAt(m, p.stdout, |head|);
    assert Text.OccursAt(m, p.stderr, |m| - |p.stderr|);
    m
  }

  /** The part of the response checks after the first result has been
    * accepted: a non-empty `expressions`, and the first expression's
    * `value` (default {}). */
  function FromFirst(first: Json.Json, stderr: string): (r: Result<(Json.Json, string)>)
    ensures r.Ok? ==> r.value.1 == stderr
    ensures r.Ok? ==> first.JObj? && "expressions" in PyDict.Keys(first.fields)
  {
    var expressions :- Json.GetItem(first, "expressions");
    if !Json.Truthy(expressions) then Err(ValueError("`expressions` field in the output has no contents"))
    else
      var expression :- Json.First(expressions);
      var value :- Json.GetOr(expression, "value", Json.JObj([]));
      Ok((value, stderr))
  }

  /** The checks up to the first result: `result` must be present and
    * non-empty. */
  function FirstResult(result: Json.Json): (r: Result<Json.Json>)
    ensures r.Ok? ==> result.JObj? || result.JArr? || result.JStr?
  {
    var present :- Json.In("result", result);
    if !present then Err(ValueError("`result` field does not exist in the output"))
    else
      var arr :- Json.GetItem(result, "result");
      if !Json.Truthy(arr) then Err(ValueError("`result` field in the output has no contents"))
      else Json.First(arr)
  }

  /** The response checks as written: `not first and "expressions" not in
    * first` only rejects an empty first result, so a non-empty one without
    * `expressions` fails later, on the subscript, with KeyError. */
  function ResponseAsWritten(result: Json.Json, stderr: string): (r: Result<(Json.Json, string)>)
    ensures r.Ok? ==> r.value.1 == stderr
  {
    var first :- FirstResult(result);
    FirstAsWritten(first, stderr)
  }

  /** The as-written check applied to the first result. */
  function FirstAsWritten(first: Json.Json, stderr: string): (r: Result<(Json.Json, string)>)
    ensures r.Ok? ==> r.value.1 == stderr
  {
    var rejected :- if Json.Truthy(first) then Ok(false)
                    else var has :- Json.In("expressions", first); Ok(!has);
    if rejected then Err(ValueError("`expressions` field does not exist in the first result"))
    else FromFirst(first, stderr)
  }

  /** The evidently intended check, `not first or "expressions" not in
    * first`: any first result without `expressions` is a ValueError. */
  function Response(result: Json.Json, stderr: string): (r: Result<(Json.Json, string)>)
    ensures r.Ok? ==> r.value.1 == stderr
  {
    var first :- FirstResult(result);
    FirstChecked(first, stderr)
  }

  /** The intended check applied to the first result. */
  function FirstChecked(first: Json.Json, stderr: string): (r: Result<(Json.Json, string)>)
    ensures r.Ok? ==> r.value.1 == stderr
  {
    var rejected :- if !Json.Truthy(first) then Ok(true)
                    else var has :- Json.In("expressions", first); Ok(!has);
    if rejected then Err(ValueError("`expressions` field does not exist in the first result"))
    else FromFirst(first, stderr)
  }

  /** The intended check: a first result that is a dict without
    * `expressions` is reported as a ValueError, and an accepted response
    * is the stderr message with a value. */
  lemma ResponseRejectsMissingExpressions(result: Json.Json, stderr: string)
    requires FirstResult(result).Ok?
    requires FirstResult(result).value.JObj? && "expressions" !in PyDict.Keys(FirstResult(result).value.fields)
    ensures Response(result, stderr).Err? && Response(result, stderr).error.ValueError?
  {
  }

  /** As written, a non-empty first result without `expressions` gets past
    * the check and fails with KeyError. */
  lemma ResponseAsWrittenKeyError(stderr: string)
    ensures var first := Json.JObj([("bindings", Json.JObj([]))]);
      var result := Json.JObj([("result", Json.JArr([first]))]);
      ResponseAsWritten(result, stderr) == Err(KeyError("expressions"))
      && Response(result, stderr).Err? && Response(result, stderr).error.ValueError?
  {
    var first := Json.JObj([("bindings", Json.JObj([]))]);
    var result := Json.JObj([("result", Json.JArr([first]))]);
    assert PyDict.Keys(result.fields) == ["result"];
    assert FirstResult(result) == Ok(first);
    assert PyDict.Keys(first.fields) == ["bindings"];
  }

  /** Whenever both accept, the two checks agree; they differ only on the
    * kind of error. */
  lemma ResponseAgreesOnSuccess(result: Json.Json, stderr: string)
    ensures Response(result, stderr).Ok? ==> ResponseAsWritten(result, stderr) == Response(result, stderr)
    ensures ResponseAsWritten(result, stderr).Ok? ==> Response(result, stderr) == ResponseAsWritten(result, stderr)
  {
    if FirstResult(result).Ok? {
      FirstChecksAgree(FirstResult(result).value, stderr);
    }
  }

  lemma FirstChecksAgree(first: Json.Json, stderr: string)
    ensures FirstChecked(first, stderr).Ok? ==> FirstAsWritten(first, stderr) == FirstChecked(first, stderr)
    ensures FirstAsWritten(first, stderr).Ok? ==> FirstChecked(first, stderr) == FirstAsWritten(first, stderr)
  {
    if Json.Truthy(first) {
      TruthyFirstAgrees(first, stderr);
    } else {
      FalsyFirstRejected(first, stderr);
    }
  }

  lemma TruthyFirstAgrees(first: Json.Json, stderr: string)
    requires Json.Truthy(first)
    ensures FirstAsWritten(first, stderr) == FromFirst(first, stderr)
    ensures FromFirst(first, stderr).Ok? ==> FirstChecked(first, stderr) == FromFirst(first, stderr)
    ensures FirstChecked(first, stderr).Ok? ==> FirstChecked(first, stderr) == FromFirst(first, stderr)
  {
  }

  lemma FalsyFirstRejected(first: Json.Json, stderr: string)
    requires !Json.Truthy(first)
    ensures FirstChecked(first, stderr).Err? && FirstAsWritten(first, stderr).Err?
  {
    FalsyHasNothing(first);
  }

  /** An empty value holds nothing, so `"expressions" in first` is never true. */
  lemma FalsyHasNothing(first: Json.Json)
    requires !Json.Truthy(first)
    ensures Json.In("expressions", first) != Ok(true)
  {
    if first.JStr? {
      assert !Text.Contains(first.s, "expressions") by {
        forall i | 0 <= i <= |first.s| ensures !Text.OccursAt(first.s, "expressions", i) {
        }
      }
    }
  }

  /** eval_opa_policy up to json.loads: the package must be named before
    * the backend runs, and a non-zero exit is a ValueError naming both
    * streams. Gives the decoded output and the stderr text. */
  function RunOpaEval(regoText: string, regoPath: string, inputData: string, external: string,
                      run: (string, string) -> Proc, parse: string -> Result<Json.Json>): (r: Result<(Json.Json, string)>)
    ensures PackageOfText(regoText) == "" ==> r.Err? && r.error.ValueError?
    ensures r.Ok? ==> r.value.1 == run(Command(regoPath, external, PackageOfText(regoText)), inputData).stderr
  {
    var package := PackageOfText(regoText);
    if package == "" then Err(ValueError("`package` must be defined in the rego policy file"))
    else
      var proc := run(Command(regoPath, external, package), inputData);
      if proc.code != 0 then Err(ValueError(ExitMessage(proc)))
      else
        var result :- parse(proc.stdout);
        Ok((result, proc.stderr))
  }

  /** eval_opa_policy with the intended response check: the package must be
    * named, the backend must exit with 0, and the decoded output must pass
    * the checks; the message is the backend's stderr. */
  function EvalOpaPolicy(regoText: string, regoPath: string, inputData: string, external: string,
                         run: (string, string) -> Proc, parse: string -> Result<Json.Json>): (r: Result<(Json.Json, string)>)
    ensures PackageOfText(regoText) == "" ==> r.Err? && r.error.ValueError?
    ensures r.Ok? ==> r.value.1 == run(Command(regoPath, external, PackageOfText(regoText)), inputData).stderr
  {
    var out :- RunOpaEval(regoText, regoPath, inputData, external, run, parse);
    Response(out.0, out.1)
  }

  /** eval_opa_policy as written, with the `and` response check. */
  function EvalOpaPolicyAsWritten(regoText: string, regoPath: string, inputData: string, external: string,
                                  run: (string, string) -> Proc, parse: string -> Result<Json.Json>): (r: Result<(Json.Json, string)>)
    ensures PackageOfText(regoText) == "" ==> r.Err? && r.error.ValueError?
    ensures r.Ok? ==> r.value.1 == run(Command(regoPath, external, PackageOfText(regoText)), inputData).stderr
  {
    var out :- RunOpaEval(regoText, regoPath, inputData, external, run, parse);
    ResponseAsWritten(out.0, out.1)
  }

  /** The code as written and the intended check succeed on the same runs
    * and then give the same value and message; they differ only in which
    * error a rejected response raises. */
  lemma EvalOpaPolicyAgreesAsWritten(regoText: string, regoPath: string, inputData: string, external: string,
                                     run: (string, string) -> Proc, parse: string -> Result<Json.Json>)
    ensures EvalOpaPolicy(regoText, regoPath, inputData, external, run, parse).Ok? <==>
            EvalOpaPolicyAsWritten(regoText, regoPath, inputData, external, run, parse).Ok?
    ensures EvalOpaPolicy(regoText, regoPath, inputData, external, run, parse).Ok? ==>
            EvalOpaPolicy(regoText, regoPath, inputData, external, run, parse) ==
            EvalOpaPolicyAsWritten(regoText, regoPath, inputData, external, run, parse)
  {
    var out := RunOpaEval(regoText, regoPath, inputData, external, run, parse);
    if out.Ok? {
      ResponseAgreesOnSuccess(out.value.0, out.value.1);
    }
  }

  /** Without a package the backend is never consulted: any two backends give
    * the same error. */
  lemma NoPackageNoRun(regoText: string, regoPath: string, inputData: string, external: string,
                       run1: (string, string) -> Proc, run2: (string, string) -> Proc, parse: string -> Result<Json.Json>)
    requires PackageOfText(regoText) == ""
    ensures EvalOpaPolicy(regoText, regoPath, inputData, external, run1, parse)
         == EvalOpaPolicy(regoText, regoPath, inputData, external, run2, parse)
  {
  }

  /** A failing process is reported with its stdout and stderr. */
  lemma NonZeroExitReported(regoText: string, regoPath: string, inputData: string, external: string,
                            run: (string, string) -> Proc, parse: string -> Result<Json.Json>)
    requires PackageOfText(regoText) != ""
    requires run(Command(regoPath, external, PackageOfText(regoText)), inputData).code != 0
    ensures var p := run(Command(regoPath, external, PackageOfText(regoText)), inputData);
      var r := EvalOpaPolicy(regoText, regoPath, inputData, external, run, parse);
      r.Err? && r.error.ValueError? && Text.Contains(r.error.msg, p.stdout) && Text.Contains(r.error.msg, p.stderr)
  {
  }

  /** OPAEngine.evaluate: save the policy if it has no file, read its
    * package, evaluate, and turn the value into a verdict. The target type
    * always counts as matched. Returns the (possibly saved) policy too. */
  function Evaluate(p: Models.Policy, t: Target, external: string, workdir: string, fs: string -> string,
                    run: (string, string) -> Proc, parse: string -> Result<Json.Json>): (r: Result<(Models.Policy, Models.SingleResult)>)
    ensures r.Ok? ==> r.value.0 == SaveIfUnsaved(p, workdir, ".rego")
    ensures r.Ok? ==> r.value.1.targetTypeMatched && r.value.1.policyName == PackageOfText(PolicyFileText(p, fs))
    ensures r.Ok? ==> r.value.1.validation != Models.NoVerdict
    ensures r.Ok? ==> r.value.1.targetType == t.kind && r.value.1.filepath == t.filepath && r.value.1.targetName == t.name
    ensures PackageOfText(PolicyFileText(p, fs)) == "" ==> r.Err? && r.error.ValueError?
    ensures r.Ok? ==>
      var proc := run(Command(r.value.0.path, external, r.value.1.policyName), t.serialized);
      && PyDict.Get(r.value.1.detail, "value").Some?
      && PyDict.Get(r.value.1.detail, "message") == Some(Json.JStr(proc.stderr))
      && Models.ReportOf(r.value.1).message == proc.stderr
  {
    var saved := SaveIfUnsaved(p, workdir, ".rego");
    var text := PolicyFileText(p, fs);
    var name := PackageOfText(text);
    var evaluated :- EvalOpaPolicy(text, saved.path, t.serialized, external, run, parse);
    var raw := [("value", evaluated.0), ("message", Json.JStr(evaluated.1))];
    var validation :- Models.ValidationOf(raw, true);
    var action :- Models.ActionOf(raw, true);
    Ok((saved, Models.SingleResult(t.kind, t.name, t.filepath, name, validation, action, true,
                                   raw, t.lines, t.metadata)))
  }

  /** A package line is found wherever it sits among other lines, and its
    * name is what follows the prefix. */
  lemma PackageNameExample(before: seq<string>, name: string, after: seq<string>)
    requires forall j :: 0 <= j < |before| ==> !IsPackageLine(before[j])
    requires |name| > 0 && !Text.IsSpace(name[|name| - 1])
    ensures PackageName(before + [PackagePrefix + name] + after) == name
  {
    var line := PackagePrefix + name;
    var lines := before + [line] + after;
    LineBetween(before, line, after);
    PrefixedPackageLine(name);
    FirstPackageLineAt(lines, |before|);
    PackageNameAt(lines, |before|);
  }

  /** "package " and a name that does not end in whitespace is a package
    * line naming that package. */
  lemma PrefixedPackageLine(name: string)
    requires |name| > 0 && !Text.IsSpace(name[|name| - 1])
    ensures IsPackageLine(PackagePrefix + name)
    ensures Text.Strip(PackagePrefix + name)[|PackagePrefix|..] == name
  {
    var line := PackagePrefix + name;
    assert line[0] == 'p' && line[|line| - 1] == name[|name| - 1];
    assert Text.TrimLeft(line) == line;
    assert Text.TrimRight(line) == line;
    PrefixedParts(name);
  }

  lemma PackageNameAt(lines: seq<string>, i: nat)
    requires FirstPackageLine(lines) == Some(i)
    ensures PackageName(lines) == Text.Strip(lines[i])[|PackagePrefix|..]
  {
  }

  lemma LineBetween(before: seq<string>, line: string, after: seq<string>)
    ensures |before + [line] + after| > |before|
    ensures (before + [line] + after)[|before|] == line
    ensures forall j :: 0 <= j < |before| ==> (before + [line] + after)[j] == before[j]
  {
  }

  lemma PrefixedParts(name: string)
    ensures (PackagePrefix + name)[..|PackagePrefix|] == PackagePrefix
    ensures (PackagePrefix + name)[|PackagePrefix|..] == name
  {
  }

  lemma {:induction false} FirstTrueAt(bs: seq<bool>, i: nat)
    requires i < |bs| && bs[i] && forall j :: 0 <= j < i ==> !bs[j]
    ensures FirstTrue(bs) == Some(i)
  {
    if i > 0 {
      FirstTrueAt(bs[1..], i - 1);
    }
  }

  lemma FirstPackageLineAt(lines: seq<string>, i: nat)
    requires i < |lines| && IsPackageLine(lines[i])
    requires forall j :: 0 <= j < i ==> !IsPackageLine(lines[j])
    ensures FirstPackageLine(lines) == Some(i)
  {
    var flags := seq(|lines|, k requires 0 <= k < |lines| => IsPackageLine(lines[k]));
    FirstTrueAt(flags, i);
  }
}
