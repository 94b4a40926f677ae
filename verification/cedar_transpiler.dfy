// CedarTranspiler: a policybook's policy set compiled to Cedar policies.
// Conditions go through the Cedar expression renderer; actions become the
// `permit(...)`/`forbid(...)` heads.

module CedarTranspiler {
  import opened Wrappers
  import Text
  import Tokens
  import opened Policybook
  import CedarExpression
  import opened CedarModel

  const RuleSeparator: string := "\n    "

  /** The action_func_template: "\n<kind>(\n    <content>\n)". */
  function Template(kind: string, content: string): string
  {
    "\n" + kind + "(\n    " + content + "\n)"
  }

  /** The argument of join_with_separator: a str, a list, or anything else. */
  datatype StrOrList = AStr(s: string) | AList(items: seq<string>) | NotText

  /** join_with_separator: a string as it is, a list joined, "" otherwise. */
  function JoinWithSeparator(x: StrOrList, sep: string): (r: string)
    ensures x.AStr? ==> r == x.s
    ensures x.NotText? ==> r == ""
  {
    match x
    case AStr(s) => s
    case AList(items) => Text.Join(items, sep)
    case NotText => ""
  }

  /** For a one-character separator the joined list splits back into the
    * list it came from. */
  lemma JoinWithSeparatorSplits(items: seq<string>, c: char)
    requires |items| >= 1
    requires forall i :: 0 <= i < |items| ==> c !in items[i]
    ensures Text.Split(JoinWithSeparator(AList(items), [c]), c) == items
  {
    Text.SplitJoin(items, c);
  }

  /** make_action: the rules joined by newline-and-indent inside the
    * template. */
  function MakeAction(kind: string, rules: seq<string>): (r: string)
    ensures Text.StartsWith(r, "\n" + kind + "(\n    ")
    ensures Text.EndsWith(r, "\n)")
  {
    var r := Template(kind, JoinWithSeparator(AList(rules), RuleSeparator));
    assert r == ("\n" + kind + "(\n    ") + (JoinWithSeparator(AList(rules), RuleSeparator) + "\n)");
    r
  }

  /** The loop that prints an action list: "[" then each item, with ", "
    * before every item once something follows the bracket. */
  function BracketAcc(acc: string, items: seq<string>): string
    decreases |items|
  {
    if |items| == 0 then acc
    else BracketAcc(if acc == "[" then acc + items[0] else acc + ", " + items[0], items[1..])
  }

  function BracketList(items: seq<string>): string
  {
    BracketAcc("[", items) + "]"
  }

  /** The bracket loop is "[" + ", ".join(items) + "]" once the leading empty
    * items, which leave the text at "[", are dropped. */
  lemma BracketListJoin(items: seq<string>)
    ensures BracketList(items) == "[" + Text.Join(Text.DropLeadingEmpty(items), ", ") + "]"
  {
    BracketAccJoin("", items);
  }

  lemma {:induction false} BracketAccJoin(a: string, items: seq<string>)
    ensures BracketAcc("[" + a, items) ==
      "[" + (if a == "" then Text.Join(Text.DropLeadingEmpty(items), ", ")
             else if |items| == 0 then a
             else a + ", " + Text.Join(items, ", "))
    decreases |items|
  {
    if |items| > 0 {
      var t := items[0];
      var rest := items[1..];
      if a == "" {
        assert "[" + a == "[";
        assert "[" + t == "[" + t;
        BracketAccJoin(t, rest);
        if t == "" {
          assert Text.DropLeadingEmpty(items) == Text.DropLeadingEmpty(rest);
        } else {
          assert Text.DropLeadingEmpty(items) == items;
          if |rest| > 0 {
            assert Text.Join(items, ", ") == t + ", " + Text.Join(rest, ", ");
          }
        }
      } else {
        assert "[" + a != "[";
        var a' := a + ", " + t;
        assert "[" + a + ", " + t == "[" + a';
        BracketAccJoin(a', rest);
        if |rest| > 0 {
          assert Text.Join(items, ", ") == t + ", " + Text.Join(rest, ", ");
          assert a' + ", " + Text.Join(rest, ", ") == a + ", " + (t + ", " + Text.Join(rest, ", "));
        }
      }
    }
  }

  /** The principal and resource matchers: None or "" match any entity, a
    * string is an equality, a dict is `is T in V`, `in V` or `is T`. A list
    * has no .get. `suffix` is "," for the principal and "" for the
    * resource. */
  function RoleRule(word: string, suffix: string, arg: RoleArg): (r: Result<string>)
    ensures r.Err? <==> arg.RoleList?
    ensures r.Err? ==> r.error.AttributeError?
    ensures arg.RoleNull? || arg == RoleStr("") ==> r == Ok(word + suffix)
  {
    match arg
    case RoleNull => Ok(word + suffix)
    case RoleStr(s) => if s == "" then Ok(word + suffix) else Ok(word + " == " + s + suffix)
    case RoleList(_) => Err(AttributeError("'list' object has no attribute 'get'"))
    case RoleDict(isType, inValue) =>
      if inValue != "" && isType != "" then Ok(word + " is " + isType + " in " + inValue + suffix)
      else if inValue != "" then Ok(word + " in " + inValue + suffix)
      else Ok(word + " is " + isType + suffix)
  }

  /** The target of an `in`: a name, or a bracketed list. */
  function InText(v: InValue): string
  {
    match v
    case InStr(s) => s
    case InList(items) => BracketList(items)
  }

  /** A list is never equal to "", so a list `in` always counts as given. */
  predicate InGiven(v: InValue)
  {
    match v
    case InStr(s) => s != ""
    case InList(_) => true
  }

  /** The action matcher. Every form renders; a list is `action in [..]`. */
  function ActionRule(arg: ActionArg): (r: string)
    ensures Text.StartsWith(r, "action") && Text.EndsWith(r, ",")
  {
    var r :=
      match arg
      case ActNull => "action,"
      case ActStr(s) => if s == "" then "action," else "action == " + s + ","
      case ActList(items) => "action in " + BracketList(items) + ","
      case ActDict(isType, inValue) =>
        if InGiven(inValue) && isType != "" then "action is " + isType + " in " + InText(inValue) + ","
        else if InGiven(inValue) then "action in " + InText(inValue) + ","
        else "action is " + isType + ",";
    assert r[..6] == "action";
    r
  }

  /** CedarTranspiler.action_to_rule: an unsupported kind raises ValueError;
    * otherwise the principal, action and resource lines inside the
    * template. */
  function ActionToRule(a: PolicyAction, validActions: seq<string>): (r: Result<string>)
    ensures a.kind !in validActions ==> r == Err(UnsupportedAction(a.kind, validActions))
    ensures r.Ok? <==> a.kind in validActions && !a.args.principal.RoleList? && !a.args.resource.RoleList?
  {
    if a.kind !in validActions then Err(UnsupportedAction(a.kind, validActions))
    else
      var principal :- RoleRule("principal", ",", a.args.principal);
      var action := ActionRule(a.args.action);
      var resource :- RoleRule("resource", "", a.args.resource);
      Ok(MakeAction(a.kind, [principal, action, resource]))
  }

  /** The loop over a policy's actions: the first rule starts the text and
    * every further rule is appended. */
  function ActionFuncs(actions: seq<PolicyAction>, validActions: seq<string>, acc: string): (r: Result<string>)
    decreases |actions|
  {
    if |actions| == 0 then Ok(acc)
    else
      var f :- ActionToRule(actions[0], validActions);
      ActionFuncs(actions[1..], validActions, if acc == "" then f else acc + f)
  }

  /** The concatenation the loop is meant to be: every rule, in order. */
  function ConcatRules(actions: seq<PolicyAction>, validActions: seq<string>): Result<string>
    decreases |actions|
  {
    if |actions| == 0 then Ok("")
    else
      var f :- ActionToRule(actions[0], validActions);
      var rest :- ConcatRules(actions[1..], validActions);
      Ok(f + rest)
  }

  /** The rules of several actions are concatenated in order. */
  lemma {:induction false} ActionFuncsConcat(actions: seq<PolicyAction>, validActions: seq<string>, acc: string)
    ensures ActionFuncs(actions, validActions, acc).Ok? <==> ConcatRules(actions, validActions).Ok?
    ensures ConcatRules(actions, validActions).Ok? ==>
      ActionFuncs(actions, validActions, acc).value == acc + ConcatRules(actions, validActions).value
    decreases |actions|
  {
    if |actions| > 0 {
      var f := ActionToRule(actions[0], validActions);
      ActionFuncsStep(actions, validActions, acc);
      ConcatRulesStep(actions, validActions);
      if f.Ok? {
        ActionFuncsConcat(actions[1..], validActions, acc + f.value);
        var rest := ConcatRules(actions[1..], validActions);
        if rest.Ok? {
          assert acc + f.value + rest.value == acc + (f.value + rest.value);
        }
      }
    }
  }

  /** One step of the loop: a failing rule fails it, and the first rule
    * extends the (possibly empty) text. */
  lemma ActionFuncsStep(actions: seq<PolicyAction>, validActions: seq<string>, acc: string)
    requires |actions| > 0
    ensures var f := ActionToRule(actions[0], validActions);
      (f.Err? ==> ActionFuncs(actions, validActions, acc).Err?)
      && (f.Ok? ==> ActionFuncs(actions, validActions, acc) == ActionFuncs(actions[1..], validActions, acc + f.value))
  {
    var f := ActionToRule(actions[0], validActions);
    if f.Ok? && acc == "" {
      assert acc + f.value == f.value;
    }
  }

  lemma ConcatRulesStep(actions: seq<PolicyAction>, validActions: seq<string>)
    requires |actions| > 0
    ensures var f := ActionToRule(actions[0], validActions);
      var rest := ConcatRules(actions[1..], validActions);
      (ConcatRules(actions, validActions).Ok? <==> f.Ok? && rest.Ok?)
      && (f.Ok? && rest.Ok? ==> ConcatRules(actions, validActions).value == f.value + rest.value)
  {
  }

  /** One entry of `policies`: the name (KeyError when missing), the
    * condition, the exception, then the actions, in that order. */
  function TranspilePolicy(pol: PolicyAst, validActions: seq<string>): (r: Result<CedarPolicy>)
    ensures r.Ok? ==> r.value.tags == pol.tags && r.value.target == pol.target
    ensures pol.name.None? ==> r.Err? && r.error.KeyError?
    ensures r.Ok? ==> CedarExpression.ConditionBody(pol.condition) == Ok(r.value.condition)
    ensures r.Ok? ==> CedarExpression.ConditionBody(pol.exception) == Ok(r.value.exception)
  {
    var name :- if pol.name.None? then Err(KeyError("name")) else Ok(Tokens.CleanErrorToken(pol.name.value));
    var cond :- CedarExpression.ConditionBody(pol.condition);
    var exc :- CedarExpression.ConditionBody(pol.exception);
    var actions :- ActionFuncs(pol.actions, validActions, "");
    Ok(CedarPolicy(cond, exc, actions, pol.tags, pol.target, ""))
  }

  function TranspileAll(pols: seq<PolicyAst>, validActions: seq<string>): (r: Result<seq<CedarPolicy>>)
    ensures r.Ok? ==> |r.value| == |pols|
    ensures r.Ok? ==> forall i :: 0 <= i < |pols| ==> TranspilePolicy(pols[i], validActions) == Ok(r.value[i])
    decreases |pols|
  {
    if |pols| == 0 then Ok([])
    else
      var head :- TranspilePolicy(pols[0], validActions);
      var tail :- TranspileAll(pols[1..], validActions);
      Ok([head] + tail)
  }

  /** CedarTranspiler.policyset_to_cedar: a document without a policy set or
    * a set without a name is rejected; otherwise one CedarPolicy per policy,
    * in order. */
  function PolicysetToCedar(doc: Document, validActions: seq<string>): (r: Result<seq<CedarPolicy>>)
    ensures doc.None? ==> r == Err(ValueError("no policy found"))
    ensures doc.Some? && doc.value.name.None? ==> r == Err(ValueError("name field is empty"))
    ensures r.Ok? ==> |r.value| == |doc.value.policies|
  {
    if doc.None? then Err(ValueError("no policy found"))
    else if doc.value.name.None? then Err(ValueError("name field is empty"))
    else TranspileAll(doc.value.policies, validActions)
  }

  /** A policy fails exactly when one of its parts fails: a missing name,
    * a condition or exception that cannot render, or an action that cannot. */
  lemma TranspilePolicyOk(pol: PolicyAst, validActions: seq<string>)
    ensures TranspilePolicy(pol, validActions).Ok? <==>
      pol.name.Some? && CedarExpression.ConditionBody(pol.condition).Ok?
      && CedarExpression.ConditionBody(pol.exception).Ok?
      && ConcatRules(pol.actions, validActions).Ok?
    ensures TranspilePolicy(pol, validActions).Ok? ==>
      TranspilePolicy(pol, validActions).value.actionFunc == ConcatRules(pol.actions, validActions).value
  {
    ActionFuncsConcat(pol.actions, validActions, "");
  }

  /** The template around three rules, as the lines of the output. */
  lemma MakeActionLines(kind: string, p: string, a: string, r: string)
    ensures MakeAction(kind, [p, a, r]) == Text.Join(["", kind + "(", "    " + p, "    " + a, "    " + r, ")"], "\n")
  {
    RulesJoin(p, a, r);
    LinesJoin(kind, p, a, r);
    TemplateOfThree(kind, p, a, r);
  }

  lemma RulesJoin(p: string, a: string, r: string)
    ensures Text.Join([p, a, r], RuleSeparator) == p + RuleSeparator + (a + RuleSeparator + r)
  {
    assert [p, a, r][1..] == [a, r];
    assert [a, r][1..] == [r];
    assert Text.Join([r], RuleSeparator) == r;
    assert Text.Join([a, r], RuleSeparator) == a + RuleSeparator + r;
  }

  lemma LinesJoin(kind: string, p: string, a: string, r: string)
    ensures Text.Join(["", kind + "(", "    " + p, "    " + a, "    " + r, ")"], "\n")
         == "" + "\n" + (kind + "(" + "\n" + ("    " + p + "\n" + ("    " + a + "\n" + ("    " + r + "\n" + ")"))))
  {
    var lines := ["", kind + "(", "    " + p, "    " + a, "    " + r, ")"];
    var l5 := [")"];
    var l4 := ["    " + r] + l5;
    var l3 := ["    " + a] + l4;
    var l2 := ["    " + p] + l3;
    var l1 := [kind + "("] + l2;
    assert lines == [""] + l1;
    assert Text.Join(l4, "\n") == "    " + r + "\n" + ")";
    assert Text.Join(l3, "\n") == "    " + a + "\n" + Text.Join(l4, "\n");
    assert Text.Join(l2, "\n") == "    " + p + "\n" + Text.Join(l3, "\n");
    assert Text.Join(l1, "\n") == kind + "(" + "\n" + Text.Join(l2, "\n");
  }

  lemma TemplateOfThree(kind: string, p: string, a: string, r: string)
    ensures Template(kind, p + RuleSeparator + (a + RuleSeparator + r))
         == "" + "\n" + (kind + "(" + "\n" + ("    " + p + "\n" + ("    " + a + "\n" + ("    " + r + "\n" + ")"))))
  {
  }

  const Permit: string := "permit"

  /** The bracket loop over two items. */
  lemma BracketTwo(x: string, y: string)
    requires x != ""
    ensures BracketList([x, y]) == "[" + x + ", " + y + "]"
  {
    var items := [x, y];
    assert items[1..] == [y];
    assert "[" + x != "[" by {
      assert |"[" + x| > 1;
    }
    assert BracketAcc("[", items) == BracketAcc("[" + x, [y]);
    assert [y][1..] == [];
  }

  /** Principal, action and resource given as plain strings. */
  lemma SimpleExample(validActions: seq<string>)
    requires Permit in validActions
    ensures ActionToRule(PolicyAction(Permit, ActionArgs(RoleStr("Company::\"XXX\""), ActStr("Action::\"allow\""), RoleStr("File::\"hello\""), "")), validActions)
      == Ok(Text.Join(["", "permit(", "    " + "principal == Company::\"XXX\",", "    " + "action == Action::\"allow\",", "    " + "resource == File::\"hello\"", ")"], "\n"))
  {
    SimpleExamplePrincipal();
    SimpleExampleAction();
    SimpleExampleResource();
    assert Permit + "(" == "permit(";
    MakeActionLines(Permit, "principal == Company::\"XXX\",", "action == Action::\"allow\",", "resource == File::\"hello\"");
  }

  /** An action list is written in brackets, separated by ", ". */
  lemma ActionListExample(validActions: seq<string>)
    requires Permit in validActions
    ensures ActionToRule(PolicyAction(Permit, ActionArgs(RoleStr("Company::\"XXX\""), ActList(["Action::\"allow\"", "Action::\"update\""]), RoleStr("File::\"hello\""), "")), validActions)
      == Ok(Text.Join(["", "permit(", "    " + "principal == Company::\"XXX\",", "    " + "action in [Action::\"allow\", Action::\"update\"],", "    " + "resource == File::\"hello\"", ")"], "\n"))
  {
    ActionListExamplePrincipal();
    ActionListExampleAction();
    ActionListExampleResource();
    assert Permit + "(" == "permit(";
    MakeActionLines(Permit, "principal == Company::\"XXX\",", "action in [Action::\"allow\", Action::\"update\"],", "resource == File::\"hello\"");
  }

  /** `in` matchers on all three. */
  lemma InExample(validActions: seq<string>)
    requires Permit in validActions
    ensures ActionToRule(PolicyAction(Permit, ActionArgs(RoleDict("", "Company::\"XXX\""), ActDict("", InStr("Action::\"allow\"")), RoleDict("", "File::\"hello\""), "")), validActions)
      == Ok(Text.Join(["", "permit(", "    " + "principal in Company::\"XXX\",", "    " + "action in Action::\"allow\",", "    " + "resource in File::\"hello\"", ")"], "\n"))
  {
    InExamplePrincipal();
    InExampleAction();
    InExampleResource();
    assert Permit + "(" == "permit(";
    MakeActionLines(Permit, "principal in Company::\"XXX\",", "action in Action::\"allow\",", "resource in File::\"hello\"");
  }

  /** `is` matchers on all three. */
  lemma IsExample(validActions: seq<string>)
    requires Permit in validActions
    ensures ActionToRule(PolicyAction(Permit, ActionArgs(RoleDict("Group1", ""), ActDict("Action1", InStr("")), RoleDict("Dir", ""), "")), validActions)
      == Ok(Text.Join(["", "permit(", "    " + "principal is Group1,", "    " + "action is Action1,", "    " + "resource is Dir", ")"], "\n"))
  {
    IsExamplePrincipal();
    IsExampleAction();
    IsExampleResource();
    assert Permit + "(" == "permit(";
    MakeActionLines(Permit, "principal is Group1,", "action is Action1,", "resource is Dir");
  }

  /** `is ... in ...` matchers, with a list for the action. */
  lemma IsInListExample(validActions: seq<string>)
    requires Permit in validActions
    ensures ActionToRule(PolicyAction(Permit, ActionArgs(RoleDict("Group1", "Company::\"XXX\""), ActDict("Action1", InList(["Action::\"allow\"", "Action::\"update\""])), RoleDict("Dir", "File::\"hello\""), "")), validActions)
      == Ok(Text.Join(["", "permit(", "    " + "principal is Group1 in Company::\"XXX\",", "    " + "action is Action1 in [Action::\"allow\", Action::\"update\"],", "    " + "resource is Dir in File::\"hello\"", ")"], "\n"))
  {
    IsInListExamplePrincipal();
    IsInListExampleAction();
    IsInListExampleResource();
    assert Permit + "(" == "permit(";
    MakeActionLines(Permit, "principal is Group1 in Company::\"XXX\",", "action is Action1 in [Action::\"allow\", Action::\"update\"],", "resource is Dir in File::\"hello\"");
  }

  /** Missing matchers (read as "") and None matchers both match anything;
    * the resource line has no trailing comma. */
  lemma WildcardExamples(validActions: seq<string>)
    requires Permit in validActions
    ensures ActionToRule(PolicyAction(Permit, ActionArgs(RoleStr(""), ActStr(""), RoleStr(""), "")), validActions)
      == Ok(Text.Join(["", "permit(", "    principal,", "    action,", "    resource", ")"], "\n"))
    ensures ActionToRule(PolicyAction(Permit, ActionArgs(RoleNull, ActNull, RoleNull, "")), validActions)
      == Ok(Text.Join(["", "permit(", "    principal,", "    action,", "    resource", ")"], "\n"))
  {
    WildcardTexts();
    MakeActionLines(Permit, "principal,", "action,", "resource");
  }

  lemma WildcardTexts()
    ensures "principal" + "," == "principal,"
    ensures "resource" + "" == "resource"
    ensures "    " + "principal," == "    principal,"
    ensures "    " + "action," == "    action,"
    ensures "    " + "resource" == "    resource"
    ensures Permit + "(" == "permit("
  {
  }

  lemma SimpleExamplePrincipal()
    ensures RoleRule("principal", ",", RoleStr("Company::\"XXX\"")) == Ok("principal == Company::\"XXX\",")
  {
    assert "principal" + " == " == "principal == ";
    assert "principal == " + "Company::\"XXX\"" == "principal == Company::\"XXX\"";
    assert "principal == Company::\"XXX\"" + "," == "principal == Company::\"XXX\",";
  }

  lemma SimpleExampleAction()
    ensures ActionRule(ActStr("Action::\"allow\"")) == "action == Action::\"allow\","
  {
    assert "action == " + "Action::\"allow\"" == "action == Action::\"allow\"";
    assert "action == Action::\"allow\"" + "," == "action == Action::\"allow\",";
  }

  lemma SimpleExampleResource()
    ensures RoleRule("resource", "", RoleStr("File::\"hello\"")) == Ok("resource == File::\"hello\"")
  {
    assert "resource" + " == " == "resource == ";
    assert "resource == " + "File::\"hello\"" == "resource == File::\"hello\"";
    assert "resource == File::\"hello\"" + "" == "resource == File::\"hello\"";
  }

  lemma ActionListExamplePrincipal()
    ensures RoleRule("principal", ",", RoleStr("Company::\"XXX\"")) == Ok("principal == Company::\"XXX\",")
  {
    assert "principal" + " == " == "principal == ";
    assert "principal == " + "Company::\"XXX\"" == "principal == Company::\"XXX\"";
    assert "principal == Company::\"XXX\"" + "," == "principal == Company::\"XXX\",";
  }

  lemma ActionListExampleAction()
    ensures ActionRule(ActList(["Action::\"allow\"", "Action::\"update\""])) == "action in [Action::\"allow\", Action::\"update\"],"
  {
    var items := ["Action::\"allow\"", "Action::\"update\""];
    ActionInList(items);
    AllowUpdateList();
    ActionInAllowUpdateText();
  }

  lemma ActionInAllowUpdateText()
    ensures "action in " + "[Action::\"allow\", Action::\"update\"]" + "," == "action in [Action::\"allow\", Action::\"update\"],"
  {
    assert "action in " + "[Action::\"allow\", Action::\"update\"]" == "action in [Action::\"allow\", Action::\"update\"]";
    assert "action in [Action::\"allow\", Action::\"update\"]" + "," == "action in [Action::\"allow\", Action::\"update\"],";
  }

  lemma ActionIsInAllowUpdateText()
    ensures "action is " + "Action1" + " in " + "[Action::\"allow\", Action::\"update\"]" + ","
         == "action is Action1 in [Action::\"allow\", Action::\"update\"],"
  {
    ActionIsAction1Text();
    ActionIsAction1InText();
  }

  lemma ActionIsAction1Text()
    ensures "action is " + "Action1" + " in " == "action is Action1 in "
  {
    assert "action is " + "Action1" == "action is Action1";
  }

  lemma ActionIsAction1InText()
    ensures "action is Action1 in " + "[Action::\"allow\", Action::\"update\"]" + ","
         == "action is Action1 in [Action::\"allow\", Action::\"update\"],"
  {
    assert "action is Action1 in " + "[Action::\"allow\", Action::\"update\"]" == "action is Action1 in [Action::\"allow\", Action::\"update\"]";
  }

  lemma ActionInList(items: seq<string>)
    ensures ActionRule(ActList(items)) == "action in " + BracketList(items) + ","
  {
  }

  lemma ActionListExampleResource()
    ensures RoleRule("resource", "", RoleStr("File::\"hello\"")) == Ok("resource == File::\"hello\"")
  {
    assert "resource" + " == " == "resource == ";
    assert "resource == " + "File::\"hello\"" == "resource == File::\"hello\"";
    assert "resource == File::\"hello\"" + "" == "resource == File::\"hello\"";
  }

  lemma InExamplePrincipal()
    ensures RoleRule("principal", ",", RoleDict("", "Company::\"XXX\"")) == Ok("principal in Company::\"XXX\",")
  {
    assert "principal" + " in " == "principal in ";
    assert "principal in " + "Company::\"XXX\"" == "principal in Company::\"XXX\"";
    assert "principal in Company::\"XXX\"" + "," == "principal in Company::\"XXX\",";
  }

  lemma InExampleAction()
    ensures ActionRule(ActDict("", InStr("Action::\"allow\""))) == "action in Action::\"allow\","
  {
    assert "action in " + "Action::\"allow\"" == "action in Action::\"allow\"";
    assert "action in Action::\"allow\"" + "," == "action in Action::\"allow\",";
  }

  lemma InExampleResource()
    ensures RoleRule("resource", "", RoleDict("", "File::\"hello\"")) == Ok("resource in File::\"hello\"")
  {
    assert "resource" + " in " == "resource in ";
    assert "resource in " + "File::\"hello\"" == "resource in File::\"hello\"";
    assert "resource in File::\"hello\"" + "" == "resource in File::\"hello\"";
  }

  lemma IsExamplePrincipal()
    ensures RoleRule("principal", ",", RoleDict("Group1", "")) == Ok("principal is Group1,")
  {
    assert "principal" + " is " == "principal is ";
    assert "principal is " + "Group1" == "principal is Group1";
    assert "principal is Group1" + "," == "principal is Group1,";
  }

  lemma IsExampleAction()
    ensures ActionRule(ActDict("Action1", InStr(""))) == "action is Action1,"
  {
    assert "action is " + "Action1" == "action is Action1";
    assert "action is Action1" + "," == "action is Action1,";
  }

  lemma IsExampleResource()
    ensures RoleRule("resource", "", RoleDict("Dir", "")) == Ok("resource is Dir")
  {
    assert "resource" + " is " == "resource is ";
    assert "resource is " + "Dir" == "resource is Dir";
    assert "resource is Dir" + "" == "resource is Dir";
  }

  lemma IsInListExamplePrincipal()
    ensures RoleRule("principal", ",", RoleDict("Group1", "Company::\"XXX\"")) == Ok("principal is Group1 in Company::\"XXX\",")
  {
    assert "principal" + " is " == "principal is ";
    assert "principal is " + "Group1" == "principal is Group1";
    assert "principal is Group1" + " in " == "principal is Group1 in ";
    assert "principal is Group1 in " + "Company::\"XXX\"" == "principal is Group1 in Company::\"XXX\"";
    assert "principal is Group1 in Company::\"XXX\"" + "," == "principal is Group1 in Company::\"XXX\",";
  }

  lemma IsInListExampleAction()
    ensures ActionRule(ActDict("Action1", InList(["Action::\"allow\"", "Action::\"update\""]))) == "action is Action1 in [Action::\"allow\", Action::\"update\"],"
  {
    var items := ["Action::\"allow\"", "Action::\"update\""];
    ActionIsInList("Action1", items);
    AllowUpdateList();
    ActionIsInAllowUpdateText();
  }

  lemma IsInListExampleResource()
    ensures RoleRule("resource", "", RoleDict("Dir", "File::\"hello\"")) == Ok("resource is Dir in File::\"hello\"")
  {
    assert "resource" + " is " == "resource is ";
    assert "resource is " + "Dir" == "resource is Dir";
    assert "resource is Dir" + " in " == "resource is Dir in ";
    assert "resource is Dir in " + "File::\"hello\"" == "resource is Dir in File::\"hello\"";
    assert "resource is Dir in File::\"hello\"" + "" == "resource is Dir in File::\"hello\"";
  }

  lemma ActionIsInList(isType: string, items: seq<string>)
    requires isType != ""
    ensures ActionRule(ActDict(isType, InList(items))) == "action is " + isType + " in " + BracketList(items) + ","
  {
  }

  lemma AllowUpdateList()
    ensures BracketList(["Action::\"allow\"", "Action::\"update\""]) == "[Action::\"allow\", Action::\"update\"]"
  {
    BracketTwo("Action::\"allow\"", "Action::\"update\"");
    assert "[" + "Action::\"allow\"" == "[Action::\"allow\"";
    assert "[Action::\"allow\"" + ", " == "[Action::\"allow\", ";
    assert "[Action::\"allow\", " + "Action::\"update\"" == "[Action::\"allow\", Action::\"update\"";
    assert "[Action::\"allow\", Action::\"update\"" + "]" == "[Action::\"allow\", Action::\"update\"]";
  }
}
