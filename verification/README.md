# ansible-policy in Dafny

A model of the core of ansible-policy, a policy checker for Ansible content.
Policies are written either in Rego or Cedar, or as *policybooks*: YAML
rule sets with conditions and actions, which the tool transpiles to Rego or
Cedar. The model follows the program's own structure.

- **Result aggregation** (`Models`, `Summarizer`). A backend's value map
  becomes a verdict (`ValidationType`) and an action kind (`ActionType`).
  Per-(policy, target) results are folded into a file → policy → target
  tree. Its violation flags only go from false to true, and its summary is
  recomputed after every insertion.
- **Cedar code generation**. This covers the condition renderer
  (`CedarExpression`) and the matcher and rule builders (`CedarTranspiler`).
  It also covers the older policybook-to-Cedar transpiler
  (`LegacyCedarTranspiler`) and the policy text assembly of both Cedar
  models (`CedarModel`, `LegacyCedarModel`).
- **Rego side**. This covers the message template rewriting and rule
  template (`OpaTranspiler`). It also covers package discovery and the
  response-shape checks of the OPA engine (`OpaEngine`).
- **Policy selection**. This covers the config line grammar and per-pattern
  verdicts (`Config`) and "longest pattern wins" (`PolicyLoader`). The `*`
  wildcard matcher and module-name resolution are in `Utils`.
- **Orchestration** (`Evaluate`). The evaluation loop keeps a per-run cache
  of loaded targets, keyed by target type. Only play and task have a
  TargetLoader, so event and rest policies fail. A missing summarizer
  fails only after every evaluation.
- **Input and record helpers**. `PolicyInput` covers the line-range codec,
  event parsing, API request data, the task export and variable resolution.
  `Utils` holds the indentation-based YAML block finder. `CedarEngine`
  covers the Cedar engine's target filtering. `ResultFormatter` covers the
  formatter's grouping and counting. `InputInterface` covers the
  `PolicyInput` base class.

Several modules support the rest:
- `Wrappers`: `Option` and `Result`, whose errors are named after the Python
  exception each stands for.
- `Text`, `Seqs`, `PyDict`, `Json`: the parts of Python's str, list, dict and
  json that the code relies on. A dict is an association list in insertion
  order.
- `Tokens`: the shared `clean_error_token`.
- `Engines`: the shared "save if unsaved" step of the engines.
- `Policybook`: the policybook AST, shaped like the dictionaries the
  condition parser produces.

External processes (`opa eval`, `cedar authorize`, `ansible-galaxy`), file
access, parsers (JSON, YAML) and loaders are function parameters.

## Model

| member | source | states |
|---|---|---|
| Models.ValidationOf | ansible_policy/models.py:71-101 | A result for a target of another type has no verdict. For a matching type there is always a verdict or an error, never "none". |
| Models.ValidationOfObject | ansible_policy/models.py:75-101 | For a dict value, the first key present among deny, allow, warn, info, ignore, permit, forbid decides. The verdict is Failure exactly when that key's value has the failing truthiness (truthy for deny, warn, info, forbid; falsy for allow, ignore, permit). A dict with none of the keys is Success. |
| Models.ValidationOfScalar | ansible_policy/models.py:75-77 | A value that is not a dict, list or string makes `"deny" in value` raise TypeError. |
| Models.ActionOf | ansible_policy/models.py:113-115 | A result for a target of another type has no action, whatever the value holds. |
| Models.ActionOfObject | ansible_policy/models.py:117-129 | The action is named by the first key present in the order deny, allow, info, warn, ignore (info before warn). It is "none" exactly when none of these keys is present. |
| Models.PermitForbidOnly | ansible_policy/models.py:92-97 | A value holding only permit or forbid has no action kind. Its verdict is decided by that key alone: Failure for a falsy permit or a truthy forbid. |
| Models.DecidingKey | ansible_policy/models.py:77-97 | The deciding key is present in the value, and none is found exactly when no listed key is present. |
| Models.AddTargetResult | ansible_policy/models.py:148-153 | Exactly one target is appended. The policy's name and type are unchanged. A set violation flag is never cleared, and the flag stays the OR over its targets of "validated is False and the action is deny or allow". |
| Models.PolicyIndex | ansible_policy/models.py:191-196 | The lookup finds the first policy with the name, and finds none exactly when the name is absent. |
| Models.AddPolicyResult | ansible_policy/models.py:163-188 | The file's path and metadata are unchanged, and a violated file stays violated. |
| Models.AddPolicyResultNames | ansible_policy/models.py:174-185 | A known policy name keeps its slot. An unknown one is appended last, even when the target type did not match. No other name appears. |
| Models.AddPolicyResultTargets | ansible_policy/models.py:182-183 | One target is recorded when the target type matched, none otherwise. |
| Models.AddPolicyResultNoDup | ansible_policy/models.py:174-185 | Policy names within a file stay unique. |
| Models.AddToPoliciesKeepsViolation | ansible_policy/models.py:148-189 | After any report every policy keeps its slot and its name, and each policy that was violated is still violated. |
| Models.AddPolicyResultConsistent | ansible_policy/models.py:163-188 | Names stay unique, each policy's flag stays the OR over its targets, and the file's flag stays the OR over its policies. |
| Models.NamesOf | ansible_policy/models.py:210-214 | The names collected from one file are exactly its policies' names, or with `violatedOnly` its violated policies' names. |
| Models.AllPolicyNames | ansible_policy/models.py:209-214 | A name is collected exactly when some file has a policy by that name, or a violated one when `violatedOnly`. |
| Models.FromFiles | ansible_policy/models.py:204-236 | The file total is the number of files, and the policy total is the length of the policy list. |
| Models.SummaryFileCounts | ansible_policy/models.py:204-231 | not_validated is the number of violated files and validated the rest, so the two add up to the total. not_validated is zero exactly when no file is violated. |
| Models.SummaryPolicies | ansible_policy/models.py:209-226 | The policy list names every policy of every file exactly once, in the order the loop first meets each name. |
| Models.SummaryPolicyCounts | ansible_policy/models.py:204-226 | total_policies is the number of distinct policy names and violation_detected the number of distinct names with a violated policy. violation_detected is at most the total, and is zero exactly when no policy is violated. |
| Models.PolicyNameSetMembers | ansible_policy/models.py:209-215 | A name is among the collected names exactly when some file holds a policy of that name (a violated one, when only violated policies count). |
| Models.SummaryFileList | ansible_policy/models.py:217-218 | The file list names every path exactly once. |
| Models.FileListInOrder | ansible_policy/models.py:217-218 | When paths are unique, the file list is the paths in file order. |
| Models.SubsetNoDupShorter | ansible_policy/models.py:220-221 | A duplicate-free list drawn from another duplicate-free list is no longer than it. This is why violation_detected never exceeds the policy total. |
| Models.AddSingleResultKeepsPolicyViolation | ansible_policy/models.py:258-295 | One more result keeps every violated policy violated, in the same file and slot and with the same name. |
| Models.FileIndex | ansible_policy/models.py:297-301 | The lookup finds the first file with the path, and finds none exactly when the path is absent. |
| Models.AddSingleResult | ansible_policy/models.py:258-294 | The report reaches the files, and the summary is always set afterwards. |
| Models.AddSingleResultFiles | ansible_policy/models.py:272-292 | A known path keeps its place and a new path is appended last. Files already present keep their metadata and never lose a violation. |
| Models.AddSingleResultTargets | ansible_policy/models.py:282-291 | The total number of targets grows by one exactly when the target type matched. |
| Models.AddSingleResultWellFormed | ansible_policy/models.py:258-294 | Paths stay unique, names stay unique per file, and flags stay the OR of their children. The summary describes the current files. |
| Summarizer.Run | ansible_policy/result_summarizer.py:9-13 | The summary stays None exactly when there were no results (it is never computed then). |
| Summarizer.RunWellFormed | ansible_policy/result_summarizer.py:9-13 | The folded result is well formed, in the sense of Models.AddSingleResultWellFormed. |
| Summarizer.RunFileOrder | ansible_policy/result_summarizer.py:10-13 | There is one file per distinct path, in the order in which paths first appear in the input. |
| Summarizer.RunTargetCount | ansible_policy/result_summarizer.py:11-12 | The number of targets in the tree is the number of inputs whose target type matched. |
| Summarizer.RunViolationMonotone | ansible_policy/result_summarizer.py:11-12 | Folding further results never turns a file's violation flag back to false. |
| Summarizer.RunPolicyViolationMonotone | ansible_policy/result_summarizer.py:11-12 | Folding further results never turns a policy's violation flag back to false. The policy keeps its file, its slot and its name. |
| Summarizer.RunStepMonotone | ansible_policy/result_summarizer.py:11-12 | One more result never clears a file violation set by the earlier results. |
| InputInterface.New | ansible_policy/interfaces/policy_input.py:22-24 | Construction fails with ValueError exactly when the class's default type is falsy. Otherwise the instance holds the class's defaults. |
| InputInterface.BaseClassRejected | ansible_policy/interfaces/policy_input.py:13-24 | The base class has an empty default type, so it cannot be instantiated. |
| InputInterface.SetAttrsSpec | ansible_policy/interfaces/policy_input.py:53-55 | Setting attributes from a dict adds no attribute. An existing attribute named in the dict takes the dict's value, and every other attribute keeps its own. |
| InputInterface.FromJson | ansible_policy/interfaces/policy_input.py:96-101 | from_json fails exactly when instantiating the class fails. |
| InputInterface.FromJsonSpec | ansible_policy/interfaces/policy_input.py:96-101 | The built instance has exactly the class's attributes. Each one is read from the data when the data has the key, and otherwise keeps its default. |
| InputInterface.FromJsonStr | ansible_policy/interfaces/policy_input.py:89-93 | A parse error propagates. A decoded non-object is a ValueError, and an object goes through from_json. |
| InputInterface.Loads | ansible_policy/interfaces/policy_input.py:34-47 | The result is a ValueError when both the JSON and the YAML parser fail. |
| InputInterface.LoadsPrefersJson | ansible_policy/interfaces/policy_input.py:38-45 | Text that JSON accepts never reaches the YAML parser, so the YAML parser cannot change the result. |
| InputInterface.LoadsRejectsNonDict | ansible_policy/interfaces/policy_input.py:49-50 | A decoded value that is not a dict is a TypeError, whichever parser decoded it. |
| InputInterface.LoadsIsFromJson | ansible_policy/interfaces/policy_input.py:52-56 | Loading text that decodes to a dict gives the same result as from_json on that dict. |
| InputInterface.Dumps | ansible_policy/interfaces/policy_input.py:62-77 | Text is returned exactly for the "json" format, and None otherwise. It encodes to_dict() when that succeeds, and the instance itself otherwise. |
| Engines.PathJoin | ansible_policy/languages/cedar/policy_engine.py:66 | The joined path ends with the file name. An absolute name replaces the directory, and otherwise the path starts with the directory. |
| Engines.SaveIfUnsaved | ansible_policy/languages/cedar/policy_engine.py:63-67 | A policy that has a path is left unchanged. One without a path is given `<workdir>/<package><ext>`, with `__no_package_found__` standing in for a missing package. |
| Engines.SaveIfUnsavedIdempotent | ansible_policy/languages/cedar/policy_engine.py:63-67 | Afterwards the policy has a path, so saving again changes nothing. Only the path ever changes. |
| CedarEngine.TargetKind | ansible_policy/languages/cedar/policy_engine.py:45-47 | A task_result input is matched as a task, and every other input type as itself. |
| CedarEngine.EvalSinglePolicy | ansible_policy/languages/cedar/policy_engine.py:44-60 | A policy for another target gives (False, {}). A task whose module does not match the policy's target module gives (True, {}). Only when neither applies is the backend called, and only a backend error makes the step fail. |
| CedarEngine.AuthorizeFailure | ansible_policy/languages/cedar/policy_engine.py:150 | The error message carries both the stdout and the stderr of the failed run. |
| CedarEngine.EvalCedarPolicy | ansible_policy/languages/cedar/policy_engine.py:127-157 | The call succeeds exactly when `cedar authorize` exits with code 0, and then gives {"allowed": "ALLOW" in stdout}. Otherwise it is a ValueError quoting both streams. |
| CedarEngine.AllowInStdoutAllowed | ansible_policy/languages/cedar/policy_engine.py:153-156 | Output that contains ALLOW anywhere gives allowed = true. |
| CedarEngine.Location | ansible_policy/languages/cedar/policy_engine.py:69-93 | Event policies report the event's uuid, {"begin": line, "end": None} and the event's attributes. Other policies report the filepath, or `__no_filepath__`, with no metadata. Locating fails only for a task or play input whose block is not found. |
| CedarEngine.Evaluate | ansible_policy/languages/cedar/policy_engine.py:62-116 | The result carries the saved policy and names the policy by its path. Without a type match there is no verdict, no action and an empty detail. With a match there is a verdict. Whenever `cedar authorize` is consulted, the detail is exactly its raw answer. |
| CedarEngine.TargetMismatchNoVerdict | ansible_policy/languages/cedar/policy_engine.py:48-49 | A policy for another target gives no verdict and no action. The backend is never consulted, so the result does not depend on it. |
| CedarEngine.ModuleMismatchSucceeds | ansible_policy/languages/cedar/policy_engine.py:50-53 | A task whose module is not the policy's target module is a success with no action. |
| CedarEngine.TaskResultReachesBackend | ansible_policy/languages/cedar/policy_engine.py:46-60 | A task_result input is checked against task policies but never against the target module, so a matching policy always reaches the backend. |
| CedarEngine.DecisionNotInVerdict | ansible_policy/languages/cedar/policy_engine.py:102-103 | The backend's answer {"allowed": ...} holds none of the keys that from_eval_result reads. A matched evaluation is therefore a success with no action, whatever Cedar decided. |
| Tokens.CleanErrorTokenIsCleanEach | ansible_policy/languages/cedar/policy_transpiler.py:226-227 | The five chained replacements equal one per-character rewrite: space, `-`, `(` and `)` become `_`, and `?` is dropped. |
| Tokens.CleanErrorTokenLength | ansible_policy/languages/cedar/policy_transpiler.py:226-227 | The cleaned name is shorter than the input by exactly the number of `?`. |
| Tokens.CleanErrorTokenIdempotent | ansible_policy/languages/cedar/policy_transpiler.py:226-227 | Cleaning twice gives the same result as cleaning once. |
| Tokens.CleanErrorTokenClean | ansible_policy/policybook_cedar/transpiler.py:284-285 | A cleaned name has no space, `-`, `?`, `(` or `)`. Every character in it comes from the input or is `_`. |
| CedarExpression.ChangeDataFormat | ansible_policy/languages/cedar/expression_transpiler.py:25-49 | A string is wrapped in double quotes. A Context, Principal, Action or Resource reference becomes its path, a variable its name, and null the text "null". Boolean, Integer and Float literals stay the raw values they hold, and a list is text. |
| CedarExpression.RenderLeafIsChangeDataFormat | ansible_policy/languages/cedar/expression_transpiler.py:222-245 | The leaf handler agrees with change_data_format on every term except a list, which it renders as "". |
| CedarExpression.Accumulate | ansible_policy/languages/cedar/expression_transpiler.py:56-62 | The only failure of the accumulation loop is a TypeError, raised when it concatenates a non-string. |
| CedarExpression.AccumulateTexts | ansible_policy/languages/cedar/expression_transpiler.py:56-62 | With text conditions the loop skips the empty conditions that come before the first non-empty one. It then joins everything after that with the separator. |
| CedarExpression.AccumulateNonText | ansible_policy/languages/cedar/expression_transpiler.py:56-62 | A non-text value anywhere makes the loop fail or end with a non-text value. |
| CedarExpression.MakeCedarSpec | ansible_policy/languages/cedar/expression_transpiler.py:56-79 | make_cedar returns "(" + sep.join(conditions) + ")" with the leading empty conditions dropped. A non-text condition is a TypeError. |
| CedarExpression.MakeCedarNoEmpty | ansible_policy/languages/cedar/expression_transpiler.py:56-79 | With no empty condition the output is exactly "(" + sep.join(conditions) + ")". |
| CedarExpression.RenderCompare | ansible_policy/languages/cedar/expression_transpiler.py:82-125 | An Equals/NotEquals node renders to text, and fails exactly when its right-hand side is a list, which has no `.items()`. |
| CedarExpression.NotEqualsMirrorsEquals | ansible_policy/languages/cedar/expression_transpiler.py:109-121 | `x != b` for a Boolean b is rendered as `x == !b`. For any other right-hand side `!=` replaces `==` and nothing else changes. |
| CedarExpression.TraceEach | ansible_policy/languages/cedar/expression_transpiler.py:177-182 | The children are rendered in order, one body per child, and each body is that child's own rendering. |
| CedarExpression.TraceEachTexts | ansible_policy/languages/cedar/expression_transpiler.py:177-182 | Children that each render to text render together without error. |
| CedarExpression.ComparisonIsText | ansible_policy/languages/cedar/expression_transpiler.py:213-219 | An Equals/NotEquals node whose right-hand side is not a list renders to text. |
| CedarExpression.AllOfComparisons | ansible_policy/languages/cedar/expression_transpiler.py:163-186 | An `all` of such comparisons renders to text without error. |
| CedarExpression.AnyOfComparisons | ansible_policy/languages/cedar/expression_transpiler.py:188-211 | An `any` of such comparisons renders to text without error. |
| CedarExpression.TraceAll | ansible_policy/languages/cedar/expression_transpiler.py:176-184 | `all` fails with its first failing child. When every child renders to text, the result is those texts joined with "&&\n    " inside parentheses, leading empty texts skipped. A child that renders to a raw literal makes it a TypeError. |
| CedarExpression.TraceAny | ansible_policy/languages/cedar/expression_transpiler.py:200-209 | `any` fails with its first failing child. When every child renders to text, the result is those texts joined with "\|\|\n    " inside parentheses, leading empty texts skipped. A child that renders to a raw literal makes it a TypeError. |
| CedarExpression.IntegerCompareExamples | tests_cedar/unit_transpiler/condition/test_transpiler_condition.py:22-23 | The integer comparisons render as `context.range.i == 1` and `context.i != 0`. |
| CedarExpression.LiteralCompareExamples | tests_cedar/unit_transpiler/condition/test_transpiler_condition.py:25-55 | A string literal is quoted (`context.become_user == "malicious-user"`), and a float keeps its text. |
| CedarExpression.BooleanCompareExamples | tests_cedar/unit_transpiler/condition/test_transpiler_condition.py:33-47 | A Boolean right-hand side is always compared with `==`, to true or to false. |
| CedarExpression.AllExample | tests_cedar/unit_transpiler/condition/test_transpiler_condition.py:109-119 | `all` over three variables is `(condition1&&\n    condition2&&\n    condition3)`. |
| Json.DumpsAscii | ansible_policy/languages/cedar/cedar_model.py:28-30 | json.dumps escapes with ensure_ascii by default, so a tags line is printable ASCII whatever the tags hold. |
| CedarModel.Sections | ansible_policy/languages/cedar/cedar_model.py:22-66 | The content list opens with the target comment and closes with ";\n". It has one extra line for tags and one for each block that is shown. |
| CedarModel.ToCedarFrame | ansible_policy/languages/cedar/cedar_model.py:22-66 | The policy text starts with the `// __target__` line and ends with "\n;\n". |
| CedarModel.JoinFrame | ansible_policy/languages/cedar/cedar_model.py:65 | A join of at least two parts starts with the first part and the separator, and ends with the separator and the last part. |
| CedarModel.SectionsLayout | ansible_policy/languages/cedar/cedar_model.py:24-63 | In order, the parts are: the target line; the tag line, when there are tags; the action text; a `when` block, exactly when the condition body is non-empty and not "()"; an `unless` block under the same test on the exception; and the ";" line. |
| CedarModel.ToSinglePolicy | ansible_policy/languages/cedar/cedar_model.py:68-76 | A Cedar-language Policy with the same name and the Cedar text as its body. Its metadata carries the tags and the target. |
| LegacyCedarModel.VarLines | ansible_policy/policybook_cedar/cedar_model.py:34-37 | There is one `name = <json>` line per variable, in mapping order. |
| LegacyCedarModel.LegacySections | ansible_policy/policybook_cedar/cedar_model.py:23-73 | The content list opens with the target comment and closes with ";\n". |
| LegacyCedarModel.VarLinesPlacement | ansible_policy/policybook_cedar/cedar_model.py:28-40 | The variable lines sit after the target and tag lines and before the action text, in mapping order. |
| LegacyCedarModel.EmptyBodyStillBlocks | ansible_policy/policybook_cedar/cedar_model.py:43-54 | An empty condition still produces an empty `when` block, which the newer model leaves out. |
| LegacyCedarModel.LegacyAgreesWithNewer | ansible_policy/policybook_cedar/cedar_model.py:23-73 | Without variables, and with bodies that are "()" or non-empty, the two models write the same text. |
| LegacyCedarModel.BlockTestsDiffer | ansible_policy/policybook_cedar/cedar_model.py:43 | The two block tests differ exactly on falsy bodies. |
| CedarTranspiler.JoinWithSeparator | ansible_policy/languages/cedar/policy_transpiler.py:218-224 | A string is returned as it is, and anything that is neither a string nor a list gives "". |
| CedarTranspiler.JoinWithSeparatorSplits | ansible_policy/languages/cedar/policy_transpiler.py:218-224 | When the separator is one character that no item contains, splitting the joined text on it gives back the list. |
| CedarTranspiler.MakeAction | ansible_policy/languages/cedar/policy_transpiler.py:43-48 | The rule text starts with "\n<action>(\n    " and ends with "\n)". |
| CedarTranspiler.BracketListJoin | ansible_policy/languages/cedar/policy_transpiler.py:138-144 | The bracket loop gives "[" + ", ".join(items) + "]". Items it meets while the text is still "[" (the leading empty ones) are dropped. |
| CedarTranspiler.RoleRule | ansible_policy/languages/cedar/policy_transpiler.py:112-128 | None or "" matches any entity. A list (which has no `.get`) is an AttributeError, and is the only failure. |
| CedarTranspiler.ActionRule | ansible_policy/languages/cedar/policy_transpiler.py:130-176 | Every action matcher renders to a line that starts with "action" and ends with ",". |
| CedarTranspiler.ActionToRule | ansible_policy/languages/cedar/policy_transpiler.py:104-197 | An action kind outside the valid actions is a ValueError. The rule fails exactly then, or when the principal or resource is a list. |
| CedarTranspiler.ActionFuncsConcat | ansible_policy/languages/cedar/policy_transpiler.py:92-99 | The action loop fails exactly when some action fails. Otherwise it appends the actions' rules in order. |
| CedarTranspiler.ActionFuncsStep | ansible_policy/languages/cedar/policy_transpiler.py:93-99 | A failing rule fails the loop. A successful one extends the running text, even when the text is still empty. |
| CedarTranspiler.TranspilePolicy | ansible_policy/languages/cedar/policy_transpiler.py:72-101 | A policy without a name is a KeyError. The policy's tags and target are kept, and the condition and exception are the renderings of the policy's own condition and exception. |
| CedarTranspiler.TranspilePolicyOk | ansible_policy/languages/cedar/policy_transpiler.py:72-101 | A policy fails exactly when its name is missing, or when its condition, its exception or one of its actions cannot be rendered. Its action text is the rules concatenated. |
| CedarTranspiler.TranspileAll | ansible_policy/languages/cedar/policy_transpiler.py:71-102 | There is one Cedar policy per entry, in order, each transpiled on its own. |
| CedarTranspiler.PolicysetToCedar | ansible_policy/languages/cedar/policy_transpiler.py:62-102 | A missing PolicySet is "no policy found" and a set without a name is "name field is empty", both ValueErrors. Otherwise there is one policy per entry. |
| CedarTranspiler.MakeActionLines | ansible_policy/languages/cedar/policy_transpiler.py:196-216 | Three rules in the template give the lines "", "<kind>(", the three indented rules and ")". |
| CedarTranspiler.BracketTwo | ansible_policy/languages/cedar/policy_transpiler.py:138-144 | Two items, the first non-empty, give "[x, y]". |
| CedarTranspiler.SimpleExample | tests_cedar/unit_transpiler/action/test_transpiler_action.py:20-38 | Plain strings give `principal == ...,`, `action == ...,` and `resource == ...` inside `permit(...)`. |
| CedarTranspiler.ActionListExample | tests_cedar/unit_transpiler/action/test_transpiler_action.py:65-84 | An action list is written `action in [a, b],`. |
| CedarTranspiler.InExample | tests_cedar/unit_transpiler/action/test_transpiler_action.py:91-110 | `in` dicts give `principal in`, `action in` and `resource in`. |
| CedarTranspiler.IsExample | tests_cedar/unit_transpiler/action/test_transpiler_action.py:117-136 | `is` dicts give `principal is`, `action is` and `resource is`. |
| CedarTranspiler.IsInListExample | tests_cedar/unit_transpiler/action/test_transpiler_action.py:169-191 | `is ... in ...` dicts with an action list give `action is Action1 in [a, b],`. |
| CedarTranspiler.WildcardExamples | tests_cedar/unit_transpiler/action/test_transpiler_action.py:198-230 | Missing matchers and None matchers both give `principal,`, `action,` and `resource`. |
| CedarTranspiler.ActionInList | ansible_policy/languages/cedar/policy_transpiler.py:137-145 | An action list is always `action in ` + the bracket list + `,`. |
| CedarTranspiler.ActionIsInList | ansible_policy/languages/cedar/policy_transpiler.py:151-160 | An `is` type with an `in` list gives `action is T in ` + the bracket list + `,`. |
| LegacyCedarTranspiler.PrincipalRule | ansible_policy/policybook_cedar/transpiler.py:170-185 | None and lists are not strings and have no `.get`, so they are an AttributeError, and these are the only failures. "" matches any principal. Every other form renders as in the newer transpiler. |
| LegacyCedarTranspiler.ActionRule | ansible_policy/policybook_cedar/transpiler.py:186-231 | None is the only failure, an AttributeError. Every other form renders as in the newer transpiler. |
| LegacyCedarTranspiler.ResourceRule | ansible_policy/policybook_cedar/transpiler.py:232-252 | None and lists are an AttributeError. "" renders as "resource," with a comma. A dict with neither `is` nor `in` renders as `resource == <str(dict)>`. |
| LegacyCedarTranspiler.ActionToRule | ansible_policy/policybook_cedar/transpiler.py:163-256 | An unsupported kind is a ValueError. The rule succeeds exactly when the kind is valid and no matcher is None and neither the principal nor the resource is a list. |
| LegacyCedarTranspiler.AgreesWhenGiven | ansible_policy/policybook_cedar/transpiler.py:163-256 | When every matcher is given, the older transpiler writes the same rule as the newer one. |
| LegacyCedarTranspiler.WildcardDiffersOnlyInResource | ansible_policy/policybook_cedar/transpiler.py:235-236 | For "" matchers the two transpilers differ only in the resource line: "resource," in the older one, "resource" in the newer one. |
| LegacyCedarTranspiler.OmittedMatchersCounterexample | tests_cedar/unit_transpiler/action/test_transpiler_action.py:198-211 | On the test's omitted-matchers input the older transpiler writes "resource," where the test expects "resource". |
| LegacyCedarTranspiler.NoneMatchersCounterexample | tests_cedar/unit_transpiler/action/test_transpiler_action.py:215-233 | On the test's all-None input the older transpiler raises, where the newer one renders the expected wildcard rule. |
| LegacyCedarTranspiler.ActionFuncsAgree | ansible_policy/policybook_cedar/transpiler.py:146-153 | With every matcher given, the two action loops produce the same text. |
| LegacyCedarTranspiler.TranspilePolicy | ansible_policy/policybook_cedar/transpiler.py:114-155 | A missing name is a KeyError. The package is the name cleaned. Tags, target and the set's vars are kept, and the condition, exception and actions are rendered. |
| LegacyCedarTranspiler.TranspileAll | ansible_policy/policybook_cedar/transpiler.py:113-155 | There is one policy per entry, in order. A failure comes from some entry. |
| LegacyCedarTranspiler.PolicysetToCedar | ansible_policy/policybook_cedar/transpiler.py:104-161 | The two ValueErrors are as in the newer transpiler. Every policy is transpiled before any file is written, so a failure writes nothing. Otherwise there is one `<cleaned name>.cedar` file per policy, in order. |
| LegacyCedarTranspiler.FilesOf | ansible_policy/policybook_cedar/transpiler.py:157-160 | There is one `<package>.cedar` file per transpiled policy, in order. |
| LegacyCedarTranspiler.PackagesNamed | ansible_policy/policybook_cedar/transpiler.py:118-120 | Every transpiled policy had a name, and its package is that name cleaned. |
| LegacyCedarTranspiler.FileNamesClean | ansible_policy/policybook_cedar/transpiler.py:159 | No written file name has a space, `-`, `?`, `(` or `)`. |
| OpaEngine.FirstPackageLine | ansible_policy/languages/opa/policy_engine.py:109-113 | The lookup finds the first line whose stripped text starts with "package ". It finds none exactly when no line does. |
| OpaEngine.PackageName | ansible_policy/languages/opa/policy_engine.py:105-114 | The package name is what follows "package " on the first package line. It is "" exactly when there is no such line. |
| OpaEngine.PackageLineHasName | ansible_policy/languages/opa/policy_engine.py:110-112 | A stripped package line is longer than the prefix, so a package line always names something. |
| OpaEngine.PackageNameExample | ansible_policy/languages/opa/policy_engine.py:105-114 | A line "package <name>" after lines that are not package lines yields exactly `name`, whatever follows it. |
| OpaEngine.ExternalOption | ansible_policy/languages/opa/policy_engine.py:122-124 | The `--data` option is present exactly when an external data path is given, and it ends with that path. |
| OpaEngine.ExitMessage | ansible_policy/languages/opa/policy_engine.py:141 | The error message quotes both stdout and stderr of the failed run. |
| OpaEngine.FirstResult | ansible_policy/languages/opa/policy_engine.py:144-150 | The `result` field must be present and non-empty. Only a container can pass. |
| OpaEngine.FromFirst | ansible_policy/languages/opa/policy_engine.py:156-166 | An accepted first result is a dict holding `expressions`. The message is the process's stderr. |
| OpaEngine.FirstChecksAgree | ansible_policy/languages/opa/policy_engine.py:152-166 | Where either the code as written or the intended check accepts a first result, both give the same value and message. |
| OpaEngine.FalsyFirstRejected | ansible_policy/languages/opa/policy_engine.py:152-158 | An empty first result is rejected both as written and as intended. |
| OpaEngine.ResponseRejectsMissingExpressions | ansible_policy/languages/opa/policy_engine.py:153-154 | With the intended `or`, a first result without `expressions` is the ValueError the message describes. |
| OpaEngine.ResponseAsWrittenKeyError | ansible_policy/languages/opa/policy_engine.py:153-156 | As written (`and`), a non-empty first result without `expressions` gets past the check and fails with a KeyError instead. |
| OpaEngine.ResponseAgreesOnSuccess | ansible_policy/languages/opa/policy_engine.py:144-166 | Whenever either check accepts a response, both give the same value. The two differ only in the kind of error. |
| OpaEngine.RunOpaEval | ansible_policy/languages/opa/policy_engine.py:115-143 | A policy without a package is a ValueError before anything runs. A successful run hands on the process's stderr with the decoded output. |
| OpaEngine.EvalOpaPolicy | ansible_policy/languages/opa/policy_engine.py:115-166 | With the intended response check: a policy without a package is a ValueError, and the message of a successful run is the process's stderr. |
| OpaEngine.EvalOpaPolicyAsWritten | ansible_policy/languages/opa/policy_engine.py:115-166 | The same with the check as written: a policy without a package is a ValueError, and the message of a successful run is the process's stderr. |
| OpaEngine.EvalOpaPolicyAgreesAsWritten | ansible_policy/languages/opa/policy_engine.py:152-166 | The code as written and the intended check succeed on the same runs, with the same value and message. They differ only in which error a rejected response raises. |
| OpaEngine.NoPackageNoRun | ansible_policy/languages/opa/policy_engine.py:118-120 | Without a package the backend is never run, so any two backends give the same result. |
| OpaEngine.NonZeroExitReported | ansible_policy/languages/opa/policy_engine.py:140-142 | A non-zero exit is a ValueError quoting both streams. |
| OpaEngine.Evaluate | ansible_policy/languages/opa/policy_engine.py:48-101 | The policy is saved as `.rego` when it has no path. The result always counts as type-matched, has a verdict, and is named by the package. It copies the input's type, filepath and name, and a missing package is a ValueError. The detail is the raw result: a "value" entry and a "message" entry holding the process's stderr, which becomes the report's message. |
| OpaTranspiler.HoleEnd | ansible_policy/languages/opa/policy_transpiler.py:124 | A placeholder at the head of a message is "{{", then at least one character that is not `}`, then "}}", as the pattern `{{\s*([^}]+)\s*}}` requires. |
| OpaTranspiler.PiecesRoundTrip | ansible_policy/languages/opa/policy_transpiler.py:124-128 | Scanning a message into text and placeholders loses nothing: putting the braces back gives the message. |
| OpaTranspiler.HolesWellFormed | ansible_policy/languages/opa/policy_transpiler.py:124 | Every placeholder found holds at least one character and no `}`. |
| OpaTranspiler.PlaceholderAtHead | ansible_policy/languages/opa/policy_transpiler.py:124-128 | A well-formed placeholder at the head of a message is scanned as one placeholder, and the scan then continues after it. |
| OpaTranspiler.PrefixChars | ansible_policy/languages/opa/policy_transpiler.py:124-128 | Text without `{` is kept character by character ahead of the rest. |
| OpaTranspiler.NoArgsFormatVerbatim | ansible_policy/languages/opa/policy_transpiler.py:127-137 | Without a placeholder the substituted text is the message itself. |
| OpaTranspiler.MakeRegoPrint | ansible_policy/languages/opa/policy_transpiler.py:123-137 | The output is always a `print(...)` call. |
| OpaTranspiler.SprintfFormat | ansible_policy/languages/opa/policy_transpiler.py:134 | The sprintf format holds no `"`, because each one becomes `'`. |
| OpaTranspiler.MakeRegoPrintShape | ansible_policy/languages/opa/policy_transpiler.py:123-137 | Without placeholders the message is printed verbatim. With placeholders it becomes `print(sprintf("<%v form>", [<stripped expressions joined by ", ">]))`. |
| OpaTranspiler.MakeRegoPrintExample | ansible_policy/languages/opa/policy_transpiler.py:129-135 | "{{ x }}" gives `print(sprintf("%v", [x]))`. |
| OpaTranspiler.MakeRegoPrintPlainExample | ansible_policy/languages/opa/policy_transpiler.py:136-137 | "ok" gives `print("ok")`. |
| OpaTranspiler.RuleLines | ansible_policy/languages/opa/policy_transpiler.py:27-33 | A two-step rule is the lines "", "<kind> = true if {", the two indented steps, "} else = false" and "". |
| OpaTranspiler.ActionToRule | ansible_policy/languages/opa/policy_transpiler.py:99-111 | An unsupported kind is a ValueError, and is the only failure. Otherwise the rule's steps are the root condition function's name and the message print. |
| OpaTranspiler.TranspilePolicy | ansible_policy/languages/opa/policy_transpiler.py:53-96 | A missing name is a KeyError and a policy without actions is an IndexError. The result is a non-policybook Rego policy with the tags, the target and the package set to the cleaned name. |
| OpaTranspiler.OnlyFirstAction | ansible_policy/languages/opa/policy_transpiler.py:81-83 | Only the first action is compiled, so adding or removing later actions changes nothing. |
| OpaTranspiler.TranspileAll | ansible_policy/languages/opa/policy_transpiler.py:53-97 | There is one Rego policy per entry, in order, and a failure comes from some entry. |
| OpaTranspiler.PolicysetToRego | ansible_policy/languages/opa/policy_transpiler.py:44-97 | "no policy found" and "name field is empty" are ValueErrors. Otherwise there is one Rego policy per entry, each with package = the cleaned name. |
| Config.NameRun | ansible_policy/config.py:28 | `[^ #]*` taken greedily: the longest prefix of the line without a space or `#`. |
| Config.LastKeyword | ansible_policy/config.py:28 | `.*(enabled\|disabled)` ends at a keyword that appears before any newline. |
| Config.LastKeywordIsRightmost | ansible_policy/config.py:28 | The keyword found has no newline before it, and no keyword starts after it unless a newline comes first. None is found only when no keyword is reachable at all. |
| Config.TagCut | ansible_policy/config.py:28 | Backtracking of the tag value `[^ ]+` keeps its longest length after which a keyword can still be found. |
| Config.PolicyBody | ansible_policy/config.py:28 | The optional tag clause, when taken, is a prefix of the body. |
| Config.PolicyBodyKeyword | ansible_policy/config.py:28 | The keyword reported for a body occurs in it. |
| Config.TagsOf | ansible_policy/config.py:64 | `tags_raw.replace(" ", "").split("=")[-1].split(",")` gives at least one tag, and no tag contains a space, `,` or `=`. |
| Config.LoadPolicyPattern | ansible_policy/config.py:53-72 | A loaded pattern's name is never "default", which becomes `*`, and contains no space or `#`. Its tags are at least one and contain no space or comma. |
| Config.PatternParts | ansible_policy/config.py:28 | The name group contains no space or `#`, and the body found after it parses. |
| Config.LoadedLineHasKeyword | ansible_policy/config.py:205-212 | Every line that loads contains "enabled" or "disabled". |
| Config.FromLinesKeepsEveryPattern | ansible_policy/config.py:203-213 | The keyword filter in from_lines never drops a line that would load: the result is every loaded line, in order. |
| Config.PolicyFromLines | ansible_policy/config.py:203-213 | There are never more patterns than lines. |
| Config.LoadRenderPattern | ansible_policy/config.py:28-72 | Loading the written form `<name> [tag=<t1,t2>] enabled\|disabled` of a well-formed pattern gives the pattern back. |
| Config.TagsRoundTrip | ansible_policy/config.py:64 | "tag=" + ",".join(tags) reads back as the tags. |
| Config.CheckEnabled | ansible_policy/config.py:74-101 | The pattern speaks exactly when its name matches the policy's source name and, if it has tags, one of them is declared in the policy file. It then returns its enabled flag. |
| Config.SourceName | ansible_policy/config.py:75-77 | The source name is the first segment of the relative path: it contains no `/` and starts the path. |
| Config.AfterName | ansible_policy/config.py:29 | `[ ]*=[ ]*([^ ]+)` reads a non-empty source without spaces, followed by nothing or by a space. |
| Config.NameCutNone | ansible_policy/config.py:29 | The name's backtracking gives up only when no shorter name is followed by `=` and a source either. |
| Config.TypeClause | ansible_policy/config.py:29 | The optional type clause is a prefix of the text after the source. |
| Config.LoadSource | ansible_policy/config.py:110-130 | A loaded source names a non-empty source without spaces. |
| Config.LoadRenderSource | ansible_policy/config.py:115-129 | "<name> = <source>" loads with the inferred type: path when the source has `/` and does not end in `.tar.gz`, galaxy otherwise. Adding " type=<kind>" makes the named kind win. |
| Config.Install | ansible_policy/config.py:132-166 | An existing non-empty target directory without `force` means already installed (None). A kind other than path or galaxy is a ValueError, and is the only failure. Galaxy installs nothing. Every installed policy is a policybook. |
| Config.SourceFromLinesSpec | ansible_policy/config.py:220-228 | A source is loaded exactly when some line parses to it, and there are never more sources than lines. |
| Config.SourceFromLinesAppend | ansible_policy/config.py:223-227 | Lines are read in order: the sources of two parts are the first part's followed by the second's. |
| Config.HeaderName | ansible_policy/config.py:27 | A header is `[name]` at the start of the line, with a non-empty name. Text after the bracket is ignored. |
| Config.ReadLine | ansible_policy/config.py:269-278 | A line fails with KeyError exactly when it is neither blank nor a header and no section has been opened. |
| Config.StripAll | ansible_policy/config.py:269 | Every line is stripped, one for one. |
| Config.ReadLinesAppend | ansible_policy/config.py:268-278 | Reading a file in two parts is the same as reading it whole. |
| Config.AppendBody | ansible_policy/config.py:277-278 | Header-free lines go to the current section, which then holds what it had plus their non-blank lines. |
| Config.LastHeaderWins | ansible_policy/config.py:274-276 | A header discards what its section held. After the last header of a section, the section holds exactly the lines that follow it. |
| Config.LineBeforeHeader | ansible_policy/config.py:266-278 | A non-blank line before any header fails with KeyError(""). |
| Config.ApplyField | ansible_policy/config.py:246-250 | Only policy, source and plugin are fields. Each loads its own section's lines and changes nothing else. |
| Config.ApplySections | ansible_policy/config.py:279-284 | The setattr loop fails exactly when some section name is not a field. |
| Config.ApplyEachOnce | ansible_policy/config.py:279-284 | With distinct names, each field holds the loading of its own section, and a missing section leaves the field as it was. |
| Config.ReadLinesUnique | ansible_policy/config.py:276 | Section names read from a file are unique in the mapping. |
| Config.LoadConfigSections | ansible_policy/config.py:262-285 | In a loaded configuration each field is its section's lines, loaded, or empty when the section is absent. |
| Evaluate.Registry | ansible_policy/evaluate.py:35-42 | The registry gives the Ansible loader's data for play and task. Event and rest have no TargetLoader, since EventTargetLoader and RESTTargetLoader are not TargetLoader subclasses; no other type has a loader either. |
| Evaluate.NewEvaluator | ansible_policy/evaluate.py:31-42 | Construction fails with ValueError exactly when no engine is given; a missing summarizer is not checked. Otherwise it keeps the engine, transpiler and summarizer, and installs the fixed loader registry. |
| Evaluate.TargetDataSpec | ansible_policy/evaluate.py:70-83 | Getting a type's data fails exactly when the type has no TargetLoader, with ValueError `failed to get target loader for type "<t>"`. Otherwise the data is what that loader gives. The loader is asked only for a type not cached before, and only non-empty data is cached, consistent with the loader. |
| Evaluate.EvalAll | ansible_policy/evaluate.py:88-90 | The loop succeeds exactly when the engine succeeds on every datum, and then holds one engine value per datum, in order. Otherwise its error is that of the first datum the engine fails on. |
| Evaluate.EvalAllOutputs | ansible_policy/evaluate.py:88-90 | When the engine accepts every datum, the loop gives exactly the engine's values. |
| Evaluate.EngineErrorAbortsRun | ansible_policy/evaluate.py:44-90 | For a plain policy whose type has a TargetLoader with some data, an engine call that raises aborts run with that same error. |
| Evaluate.MissingLoaderAbortsRun | ansible_policy/evaluate.py:70-76 | A plain policy whose supported type has no TargetLoader aborts run with `failed to get target loader for type "<t>"`, before any engine call. |
| Evaluate.EventAndRestRejected | ansible_policy/evaluate.py:35-42 | With the registry the constructor installs, only play and task policies can be evaluated. An event or rest policy makes run fail with `failed to get target loader`. |
| Evaluate.EvalPolicy | ansible_policy/evaluate.py:65-68 | A target type outside the supported ones is the ValueError `target type "<t>" is not supported`. |
| Evaluate.EvalPolicyStep | ansible_policy/evaluate.py:64-90 | One actual policy goes through exactly when it can be evaluated. That means its type is supported and has a TargetLoader, the loader gives some data, and the engine succeeds on every datum. It then appends the engine's value for each datum and records a load only for an uncached type. A missing loader gives the `failed to get target loader` ValueError. Empty data gives `No target data found`. Otherwise a failure is the engine's own error. |
| Evaluate.EvalPolicyLoads | ansible_policy/evaluate.py:70-83 | A policy that goes through keeps the cache consistent and records a load only for a type not asked for before. |
| Evaluate.Actual | ansible_policy/evaluate.py:52-62 | An element that is not a Policy is a TypeError. A plain policy stands for itself. A policybook without a transpiler is a ValueError. |
| Evaluate.EvalPoliciesSpec | ansible_policy/evaluate.py:64-90 | The loop over actual policies succeeds exactly when each of them can be evaluated. That includes a TargetLoader for its type and the engine calls. It then appends the expected values in order, keeps the cache consistent, and asks the loader only for these policies' types. |
| Evaluate.EvalItemsSpec | ansible_policy/evaluate.py:51-90 | The nested loops succeed exactly when every element has its actual policies and each of those can be evaluated. That includes its TargetLoader and the engine calls. The results are then the engine's values in nested-loop order. |
| Evaluate.RunSpec | ansible_policy/evaluate.py:44-93 | run succeeds exactly when three things hold: every element stands for policies that can all be evaluated (TargetLoader, data and engine calls), and a summarizer is set. It then summarises, once, the engine's value for each pair in nested-loop order. Without a summarizer, an evaluation that goes through ends in AttributeError. |
| Evaluate.RunLoadsOnce | ansible_policy/evaluate.py:71-83 | In a run that succeeds, the loader is asked for each target type at most once. |
| PolicyInput.FromDict | ansible_policy/policy_input.py:494-506 | from_dict fails with ValueError exactly when "begin" is missing. Otherwise it takes begin from the dict, and end from the dict or None. |
| PolicyInput.ToDict | ansible_policy/policy_input.py:519-520 | The dict holds exactly the keys begin and end, in that order, with the block's values. |
| PolicyInput.DictRoundTrip | ansible_policy/policy_input.py:494-520 | A {begin, end} dict survives from_dict followed by to_dict. |
| PolicyInput.BeginOnlyRoundTrip | ansible_policy/policy_input.py:501-504 | A dict with only begin comes back with end = None. |
| PolicyInput.Render | ansible_policy/policy_input.py:508-517 | repr fails with ValueError exactly when begin is not an int, where True and False count as ints. Otherwise it is "L<begin>-<end>" when end is set and "L<begin>" when it is not, with a Boolean begin written "True" or "False". |
| PolicyInput.BoolBeginRenders | ansible_policy/policy_input.py:508-517 | A Boolean begin passes the int test: begin True with end 3 renders "LTrue-3", and a dict with begin False renders "LFalse". |
| PolicyInput.DictToStr | ansible_policy/policy_input.py:478-481 | dict2str succeeds exactly when the dict has a begin that Python counts as an int (an int, True or False), and then renders the block built from begin and end. |
| PolicyInput.FromStr | ansible_policy/policy_input.py:483-492 | from_str succeeds exactly when the text starts with "L" and contains "-". The bounds are kept as strings, and begin has no "L" or "-". |
| PolicyInput.RenderFromStr | ansible_policy/policy_input.py:484-517 | Parsing a rendered range gives the bounds back as digit strings, not ints. The parsed block therefore cannot be rendered again. |
| PolicyInput.FromStrOfRange | ansible_policy/policy_input.py:484-490 | "L<digits>-<digits>" parses into its two digit runs. |
| PolicyInput.TaskLocation | ansible_policy/policy_input.py:582-592 | The file is the text before the first ":". A line number is read only from a string path that contains ":". A task path that is not a string leaves ("", None). |
| PolicyInput.TaskLocationOf | ansible_policy/policy_input.py:586-590 | "file:n" gives the file and line n. |
| PolicyInput.TaskLocationNoColon | ansible_policy/policy_input.py:586-588 | A path without ":" is all file and has no line. |
| PolicyInput.TaskLocationTrailingColon | ansible_policy/policy_input.py:588 | A trailing ":" gives no line. |
| PolicyInput.FromJobEvent | ansible_policy/policy_input.py:572-598 | The call fails exactly when the event, or its event_data, is not a dict. The name repeats the event type, event_data defaults to {}, and filepath and line come from the task path. |
| PolicyInput.GetUpdate | ansible_policy/policy_input.py:618-622 | After d.update(e), a key of e reads as in e and any other key reads as in d. |
| PolicyInput.ComputeDataGet | ansible_policy/policy_input.py:617-623 | The merged data has unique keys. post_data wins a key collision, and a key in neither part is absent. |
| PolicyInput.NewApiRequest | ansible_policy/policy_input.py:613-615 | Data given to the constructor is kept, and empty data is computed from the two parts. |
| PolicyInput.ApiRequestFromDict | ansible_policy/policy_input.py:625-634 | Each part is read with its default, and the data is computed from the two parameter parts. |
| PolicyInput.UpdateFresh | ansible_policy/policy_input.py:620 | Updating an empty dict with e copies e. |
| PolicyInput.TaskFieldsToModuleOptions | ansible_policy/policy_input.py:1009-1025 | A falsy action gives {}, and an unhashable action is the only failure. Otherwise the action is the one key, mapped to a copy of the args when they form a non-empty dict and to {} otherwise. |
| PolicyInput.ModuleOptionsCopyArgs | ansible_policy/policy_input.py:1016-1025 | A non-empty args dict is handed over unchanged under the action. |
| PolicyInput.ExportTaskGet | ansible_policy/policy_input.py:722-733 | For a task record, `_async` is exported as "async", no `_async` key remains, and every other attribute is kept. |
| PolicyInput.ExportTaskRenamesAsync | ansible_policy/policy_input.py:729-730 | A task's `_async` value is found under "async" only. |
| PolicyInput.ResolveShape | ansible_policy/policy_input.py:1079-1103 | The walk keeps the data's shape: dict keys in order and list lengths. Falsy data, an empty variable map and non-string scalars come back unchanged. |
| PolicyInput.ResolveIdentity | ansible_policy/policy_input.py:1079-1103 | A resolver that leaves every string unchanged makes the whole walk the identity. |
| PolicyLoader.InstallOne | ansible_policy/policy_loader.py:48-54 | One source fails exactly when its kind is unsupported and it is not already installed. What it contributes is policybooks only. |
| PolicyLoader.InstallAll | ansible_policy/policy_loader.py:45-55 | install fails exactly when some source fails. Otherwise it yields only policybooks. |
| PolicyLoader.Installs | ansible_policy/policy_loader.py:48-52 | Every source is installed under the work directory without force, in source order. |
| PolicyLoader.InstallAllAppend | ansible_policy/policy_loader.py:47-55 | Installing two lists of sources one after the other gives the two results concatenated, so the result follows source order. |
| PolicyLoader.SetupAndInstall | ansible_policy/policy_loader.py:32-43 | Without a configuration, a policy path appends the pattern "policy" (enabled) and a "path" source for it. Without either, the loader is unchanged. The result is always the install of the loader's final sources. |
| PolicyLoader.PolicyPathInstallsLast | ansible_policy/policy_loader.py:37-43 | Policies from earlier sources come first, then the policies under the policy path. |
| PolicyLoader.Run | ansible_policy/policy_loader.py:57-70 | A path that does not exist is OSError("file not found: <path>"). A non-empty path is added as the last source. |
| PolicyLoader.ReplacePolicybooks | ansible_policy/policy_loader.py:64-69 | A list without policybooks comes back unchanged. A policybook without a transpiler fails. |
| PolicyLoader.SortByNameLength | ansible_policy/policy_loader.py:83 | sorted(..., key=len(name)) is in ascending name length. Being stable, it keeps, for each length, the patterns of that length in their original order. |
| PolicyLoader.Insert | ansible_policy/policy_loader.py:83 | Insertion keeps the list sorted and adds exactly the one pattern after the names that are not longer. |
| PolicyLoader.SortedSameMembers | ansible_policy/policy_loader.py:83 | Sorting keeps exactly the patterns it was given. |
| PolicyLoader.FinalVerdict | ansible_policy/policy_loader.py:87-92 | The verdict a file ends with is the last one any pattern gives. It is none exactly when no pattern speaks. |
| PolicyLoader.ApplyFilesGet | ansible_policy/policy_loader.py:85-92 | After the loops, a found file maps to its final verdict, if any, and nothing else is in the map. |
| PolicyLoader.EnabledKeys | ansible_policy/policy_loader.py:93-96 | The keys whose value is True are collected in dict order, without duplicates. |
| PolicyLoader.ListEnabledPolicies | ansible_policy/policy_loader.py:72-97 | A file is listed, once, exactly when one of the two globs found it and its final verdict, with patterns applied shortest name first, is True. Files are listed in the order they were first found. |
| PolicyLoader.ApplyPatternsKeys | ansible_policy/policy_loader.py:84-93 | The pattern loop for one file adds it as a new key exactly when it was not a key and some pattern has a verdict for it. |
| PolicyLoader.ApplyFilesKeysOrder | ansible_policy/policy_loader.py:82-93 | The dict's keys are found files, in the order they were first found. |
| PolicyLoader.EnabledKeysOrder | ansible_policy/policy_loader.py:94-97 | Keeping the True entries keeps the dict order. |
| PolicyLoader.LongestPatternWins | ansible_policy/policy_loader.py:82-92 | The verdict that stands comes from a configured pattern, and no pattern with a verdict for the file has a longer name. |
| PolicyLoader.DefaultDisabledRoleEnabled | ansible_policy/policy_loader.py:82-92 | With "default disabled" and "roleA enabled", in either order, files of the source roleA are enabled and all others are disabled. |
| ResultFormatter.ValidateFormat | ansible_policy/result_formatter.py:29-31 | A formatter is accepted exactly when its format is one of plain, event_stream, rest and json. None or any other value is a ValueError. |
| ResultFormatter.ShortenFilepath | ansible_policy/result_formatter.py:258-264 | A path under the base directory (with "/" added when missing) loses that prefix, and any other path is kept. An empty base directory cannot be indexed. |
| ResultFormatter.ShortenUnderBase | ansible_policy/result_formatter.py:258-264 | base + "/" + rest is shown as rest, whether or not the base has its trailing "/". |
| ResultFormatter.Truncate | ansible_policy/result_formatter.py:75-77 | A message of at most 120 characters is kept. A longer one is cut to its first 120 characters followed by "...". |
| ResultFormatter.TruncateIdempotent | ansible_policy/result_formatter.py:75-77 | Truncating a truncated message changes nothing. |
| ResultFormatter.Rows | ansible_policy/result_formatter.py:124-127 | The rows are every target of the tree, file by file and policy by policy. |
| ResultFormatter.Reported | ansible_policy/result_formatter.py:128 | The rows reported are exactly those whose validated is False. |
| ResultFormatter.DetailOf | ansible_policy/result_formatter.py:129-141 | A row's lines are rendered by dict2str when present, which fails unless begin is an int (True and False included). The detail carries the row's category, type, name and filepath. |
| ResultFormatter.DetailsSpec | ansible_policy/result_formatter.py:123-141 | The details are the rows' details, in order, and fail exactly when one row's detail fails. |
| ResultFormatter.AddPatternSpec | ansible_policy/result_formatter.py:160-170 | Adding a pattern to a type's list adds exactly that pattern, once, and keeps every list duplicate-free. |
| ResultFormatter.GroupSpec | ansible_policy/result_formatter.py:146-170 | For each category and type, the list holds exactly the distinct patterns "<type> <name> <filepath> <lines>" of that category's details. |
| ResultFormatter.GroupCount | ansible_policy/result_formatter.py:215-232 | The count shown for a type is the number of distinct patterns reported for it. |
| ResultFormatter.Fragment | ansible_policy/result_formatter.py:216-220 | Each "<count> <type>[s]" fragment is non-empty. |
| ResultFormatter.CountTextJoin | ansible_policy/result_formatter.py:215-234 | The count text is the fragments joined by ", ", with the leading ", " cut. It is empty exactly when no type was counted. |
| ResultFormatter.NoViolationsIffEmpty | ansible_policy/result_formatter.py:233-255 | "No violations are detected" is printed exactly when all three category maps are empty. |
| ResultFormatter.GroupEmpty | ansible_policy/result_formatter.py:159-170 | A category's map is empty exactly when no detail falls in that category. |
| ResultFormatter.GroupsEmptyIffUnreported | ansible_policy/result_formatter.py:159-170 | All three category maps are empty exactly when no detail has a deny, allow, warn or info action. |
| ResultFormatter.DetailsSilent | ansible_policy/result_formatter.py:128-141 | The details fall in no category exactly when every reported row has an action other than deny, allow, warn and info. |
| ResultFormatter.PlainSummary | ansible_policy/result_formatter.py:122-255 | The summary can be produced exactly when every reported row's lines can be rendered. |
| ResultFormatter.PlainSummaryNoViolations | ansible_policy/result_formatter.py:122-255 | The closing summary built from the details says "No violations are detected" exactly when no target that failed validation has a deny, allow, warn or info action. |
| ResultFormatter.FilesLine | ansible_policy/result_formatter.py:200-210 | The file counts line needs a summary, so a result without one cannot be printed. |
| Utils.MatchStr | ansible_policy/utils.py:163-174 | An empty pattern or "*" matches everything. A pattern without "*" matches only the identical text. |
| Utils.TrailingTextAllowed | ansible_policy/utils.py:170-172 | re.match anchors only at the start, so a pattern with "*" that matches a text also matches every extension of it. |
| Utils.LiteralPrefix | ansible_policy/utils.py:170-172 | Under re.match, a pattern free of "*" and "." matches exactly the texts that start with it. |
| Utils.PrefixStar | ansible_policy/utils.py:170-172 | "name*" selects exactly the texts that start with "name". |
| Utils.LeadingStar | ansible_policy/utils.py:170-172 | A leading "*" (".*") skips any newline-free run of the text before the rest of the pattern must match. |
| Utils.GetModuleName | ansible_policy/utils.py:54-71 | The short name has no "." and ends the full name. A name without "." is its own short name. |
| Utils.ShortName | ansible_policy/utils.py:67-69 | name.split(".")[-1] is a dot-free suffix of the name, and the whole name when it has no ".". |
| Utils.ModuleNamePriority | ansible_policy/utils.py:54-65 | The name comes from module_info's fqcn, else from the annotation module.correct_fqcn, else from correct_fqcn (annotations are read only when the task has any), else from task.module. |
| Utils.NameFromInfo | ansible_policy/utils.py:56-57 | A non-empty fqcn in module_info is the name reported. |
| Utils.MappedFqcn | ansible_policy/utils.py:83-89 | The fully qualified name is the module when it is dotted, else the first galaxy mapping when that is dotted, else empty. So it is empty or dotted. |
| Utils.CollectionAndRest | ansible_policy/utils.py:92-93 | The collection (first two dotted parts), a dot and the short name (the remaining parts) rebuild the fqcn. |
| Utils.EmbedModuleInfo | ansible_policy/utils.py:74-100 | A task without a module is untouched. The module name and annotations never change. Existing module_info is kept. A dotted module keeps its own fqcn. |
| Utils.InfoOfLookups | ansible_policy/utils.py:94-99 | The generated module_info records the collection, the fqcn and the short name. |
| Utils.EmbedIdempotent | ansible_policy/utils.py:74-100 | Embedding galaxy data a second time changes nothing. |
| Utils.EmbedThenName | ansible_policy/utils.py:54-99 | A task without module_info whose module resolves to a fqcn then reports that fqcn as its module name. Its module_info splits the fqcn into collection and short name. |
| Utils.EmbedWithoutMapping | ansible_policy/utils.py:83-90 | A bare module name with no galaxy mappings is left as it is. |
| Utils.LeadingSpaces | ansible_policy/utils.py:386-388 | The indent, len(line.split("-")[0]) on an item line, is the number of leading spaces. It is followed by a non-space. |
| Utils.UpScan | ansible_policy/utils.py:392-413 | The upward search stops at the nearest column-0 item at or above the start line, skipping tasks headers for plays. It is None only when there is no such line. |
| Utils.EndScan | ansible_policy/utils.py:416-428 | The downward search finds the first item indented no deeper than the block, or none. |
| Utils.BlockStart | ansible_policy/utils.py:384-413 | The block begins at the start line when that is an item. Otherwise it begins at the nearest block top above. No block is found exactly when neither exists. |
| Utils.FindBlockAsWritten | ansible_policy/utils.py:376-441 | As written, the finder raises IndexError exactly when a non-empty file is indexed past its end. |
| Utils.BlockFromAsWrittenAgainst | ansible_policy/utils.py:415-441 | The end scan as written matches the intended one, except at the end of the file: the last line is reported one too far, or the block is lost when it is the last line. |
| Utils.FindBlock | ansible_policy/utils.py:376-441 | The finder as intended. An empty file or a negative start yields no block. A block found holds the start line, begins with an item and stops before the next item indented no deeper. No block means no item or block top at or above the start. |
| Utils.BlockFromEncloses | ansible_policy/utils.py:415-441 | A block that starts at an item at or above the start line and ends no earlier encloses the start line. |
| Utils.BlockEnd | ansible_policy/utils.py:415-433 | The last line of a block is the line before the first ending item below its top, or the last line of the file. |
| Utils.BlockFrom | ansible_policy/utils.py:439-441 | The block's text is its lines joined by newlines, numbered from 1. No line inside ends it, and the line after it does (or the file ends). |
| Utils.TopNotBeforeEnd | ansible_policy/utils.py:399-433 | A block found by searching upward reaches down to the start line. |
| Utils.ItemIsNotHeader | ansible_policy/utils.py:572-574 | An item line is never a tasks header. |
| Utils.PlayFinderIsTaskFinder | ansible_policy/utils.py:546-612 | _find_play_block and _find_task_block return the same result on every input, both as written and as intended. |
| Utils.FindBlockByStart | ansible_policy/utils.py:413-441 | The finder depends on the upward search only through where the block starts. |
| Utils.UpScanSame | ansible_policy/utils.py:568-582 | The upward searches of the two finders stop at the same line. |
| Utils.BlockTopSame | ansible_policy/utils.py:572-576 | A line stops the play search exactly when it stops the task search. |
| Utils.AsWrittenAgainstIntended | ansible_policy/utils.py:376-441 | The code as written returns the intended result except for blocks that run to the end of the file. Their last line is reported one past the end, and a block that is only the last line is not found. |
| Utils.EndOfFileOffByOne | ansible_policy/utils.py:429-441 | For ["- a", "  b"] from line 0, the code reports lines 1 to 3, where 1 to 2 is intended. |
| Utils.LastLineBlockLost | ansible_policy/utils.py:418-435 | For ["- a"], the code finds no block, where lines 1 to 1 are intended. |

## Left out

- Subprocesses (`opa eval`, `cedar authorize`, `which`, `ansible-galaxy`, `ansible-playbook`) are function parameters returning an exit code with stdout and stderr, or the already-parsed JSON response. The `validate_*_installation` checks are left out.
- File, glob, tempfile, zip, tar and base64 I/O are left out or are parameters: Policy.load and save, load_policybook_dir, directory listing, existence checks, and prepare_project_dir_from_runner_jobdata. The tag lookup of a Rego file (get_tags_from_rego_policy_file) is a parameter.
- CedarEngine.Location: the read of the input file for a policy that is neither event nor rest is left out (languages/cedar/policy_engine.py:87-89). So is the FileNotFoundError it raises, for instance when the path is `__no_filepath__`. The file's body reaches the model only through the block parameter.
- Reflective plugin discovery (load_classes_in_dir, load_plugin_set, Plugin.load) is not modelled. Plugin lines of the config are kept as raw text.
- Policybook parsing is not modelled: the condition parser, json_generator, policy_parser and the YAML loader. The AST datatype takes the shape the parser emits. VALID_ACTIONS is a parameter set.
- The Rego condition compiler (condition_to_rule and its helpers, rego_model) is a parameter of the OPA transpiler. RegoPolicy.to_rego is a parameter as well.
- Content scanning and Ansible runtime objects (scan_project, DataContainer, the from_object converters, TaskResult) are foreign. Only the fields the modelled code reads are represented.
- The candidate ranking of find_task_line_number and find_play_line_number is not modelled. It relies on Levenshtein distance and YAML dumping. Only the block finders they call are modelled.
- Serialisation is a parameter: json, yaml and jsonpickle. Regular expressions are modelled only where the code uses them. In match_str_expression the only metacharacters modelled are "*" (rewritten to ".*") and ".". Python's other regex syntax in a pattern is not modelled. The config line regexes are modelled as the tokenisers they amount to.
- Float literals are opaque tokens.
- The definition of VALID_ACTIONS is not part of this model. The unsupported-action message prints it as a Python list of plain strings (Policybook.UnsupportedAction).
- OpaTranspiler.TranspilePolicy: a policy without a target gets target "" where Python keeps None. The evaluator then reports `target type ""` rather than `target type "None"`, with the same ValueError.
- CedarModel.ToSinglePolicy: a missing target is "" in the same way.
- Python int() accepting underscores, signs with spaces and non-ASCII digits is not modelled. Line numbers parse ASCII digits only.
- hasattr on keys that name methods rather than data attributes is not modelled. A PolicyInput class is the map of its data attributes.
- recursive_resolve_single_var depends on the foreign extract_var_parts and is a parameter.
- Printing is not modelled: ANSI colours, isatty, terminal width, ljust'ed headers, print_json, and the per-row printing of print_event_stream and print_rest. Only their message truncation is modelled.
- ResultFormatter.PlainSummaryNoViolations: states what the closing summary says, not what print_plain prints. As written, the first reported row whose action is ignore or none, when no earlier row is deny, allow, warn or info, reaches `print(f"... {policy_name} {flag}")` (result_formatter.py:193) with `flag` unbound. So the source prints "No violations are detected" only when no target failed at all.
- ResultFormatter.PlainSummary: the per-row lines of print_plain are not modelled. That includes the UnboundLocalError on `flag` that result_formatter.py:180-195 raises for a reported row whose action is ignore or none when no earlier row set it.
- The command line (cli/main.py) and the examples are entry points, not core logic. Of target_loader.py only the class hierarchy matters to the model: AnsibleTargetLoader's run is a parameter, and EventTargetLoader and RESTTargetLoader are not TargetLoaders (see Evaluate.Registry).
- The data declarations in languages/cedar/policy_input.py, policybook/policybook_models.py and the InputData class of the cedar model are used only as datatype shapes.
- The newer Cedar transpiler imports the Rego expression transpiler (languages/cedar/policy_transpiler.py:36). The model wires in the Cedar expression transpiler, which is evidently what is meant.
- Evaluate.TargetDataSpec: evaluate.py:77-81 passes `target=` to AnsibleTargetLoader.run, which does not accept it, so as written the call raises TypeError. The model's loader receives the target type and returns its data.
- The Cedar engine calls eval_cedar_policy with `rego_path=` and `external_data_path=`, which it does not accept (languages/cedar/policy_engine.py:55-59). The call is abstracted behind the authorisation parameter.
- CedarEngine.Evaluate: an event's uuid is taken to be a string.
- PolicyInput.ExportTaskGet: the `__module__` branch of PolicyInputTask.to_dict can never fire for a task record, because the field is named `_module`. The lemma therefore covers records without a `__module__` attribute, and `_module` is exported under its own name, as the code does. PolicyInput.ExportTask itself models the branch.
- ResultFormatter.DetailOf: a target whose `lines` is None is represented by the empty dict. Its missing rendering is "" rather than None, which is what the formatter's later `if not lines` turns None into.
- CedarExpression.ChangeDataFormat: a list is stated only to render as text. The JSON encoding of its items is not spelled out.
- OpaEngine.EvalOpaPolicy: applies the intended response check (see Findings). As written, a non-empty first result without `expressions` raises KeyError('expressions') instead of the ValueError. OpaEngine.EvalOpaPolicyAsWritten models the code as written, and OpaEngine.EvalOpaPolicyAgreesAsWritten shows that this error is the only difference.
- OpaEngine.Evaluate: is built on EvalOpaPolicy, so it reports that same ValueError where the code as written raises KeyError.
- PolicyInput.PyStr: a list or dict is written as json.dumps writes it, not as Python's repr, which uses single quotes and True, False and None inside containers.
- PolicyInput.Render: a code block whose end is a list or dict is rendered through PyStr, with the same JSON-for-repr substitution.
- LegacyCedarTranspiler.TranspilePolicy: the legacy module imports `expressioin_transpiler`, which does not exist (policybook_cedar/transpiler.py:30), and instantiates it at module level (:34). As written, the module cannot be imported at all. The model takes the condition renderer as the parameter `trace` and states its results relative to that renderer.
- LegacyCedarTranspiler.PolicysetToCedar: is built on TranspilePolicy, with the same import failure and the same `trace` parameter.
- LegacyCedarTranspiler.TranspileAll: renders conditions with the same `trace` parameter.
- The condition unit tests under tests_cedar import the same missing module. The action tests target the legacy transpiler. Their expected outputs are stated as example lemmas against the newer transpiler and contrasted with the legacy one.

## Findings

| source | as written | input that shows it | evidently intended | confidence | as-written member | corrected member |
|---|---|---|---|---|---|---|
| ansible_policy/languages/opa/policy_engine.py:153 | `if not first_result and "expressions" not in first_result` only fires for an empty first result, so a non-empty first result without `expressions` reaches the lookup on line 156 and raises KeyError | `{"result": [{"bindings": {}}]}` | `or`, so that a first result without `expressions` is the ValueError its message describes | high, not executed | OpaEngine.ResponseAsWrittenKeyError | OpaEngine.ResponseRejectsMissingExpressions |
| ansible_policy/utils.py:429-441 | a block that runs to the end of the file reports last line len(lines)+1, and a block that starts on the last line is not found | `["- a", "  b"]` from line 0 gives lines 1-3; `["- a"]` from line 0 gives no block | the last line of the file ends the block: lines 1-2, and lines 1-1 | high, not executed | Utils.FindBlockAsWritten | Utils.FindBlock |
| ansible_policy/policybook_cedar/transpiler.py:171-178 | a wildcard resource renders as "resource," with a trailing comma, and None matchers raise | resource "" gives "resource,"; principal None raises | "resource" without a comma and None treated as the wildcard, as test_transpiler_action.py:198-233 expects | medium, not executed | LegacyCedarTranspiler.OmittedMatchersCounterexample | CedarTranspiler.WildcardExamples |

