// OPATranspiler: a policybook compiled to Rego. The Rego expression
// transpiler and RegoPolicy.to_rego are outside this model and come in as
// parameters; what is modelled is the message rewriting, the rule template
// and the per-policy assembly.

module OpaTranspiler {
  import opened Wrappers
  import Text
  import Tokens
  import PyDict
  import Json
  import Models
  import opened Policybook

  // ---------------------------------------------------------------------
  // make_rego_print: `{{ expr }}` placeholders
  // ---------------------------------------------------------------------

  /** The message as the placeholder scan sees it: plain characters and
    * placeholders, each holding the text between its braces. */
  datatype Piece = Chr(c: char) | Hole(inner: string)

  /** The first index at or after i holding '}', or |s|. */
  function FirstClose(s: string, i: nat): (j: nat)
    requires i <= |s|
    ensures i <= j <= |s|
    ensures j < |s| ==> s[j] == '}'
    ensures forall k :: i <= k < j ==> s[k] != '}'
    decreases |s| - i
  {
    if i == |s| || s[i] == '}' then i else FirstClose(s, i + 1)
  }

  /** Where a placeholder starting at the head of s ends: "{{", at least one
    * character that is not '}', then "}}". The inner text cannot contain
    * '}', so the closing braces are the first '}' and the one after it. */
  function HoleEnd(s: string): (r: Option<nat>)
    ensures r.Some? ==> 5 <= r.value <= |s| && s[0] == '{' && s[1] == '{'
                        && s[r.value - 2] == '}' && s[r.value - 1] == '}'
                        && '}' !in s[2..r.value - 2]
  {
    if |s| >= 2 && s[0] == '{' && s[1] == '{' then
      var j := FirstClose(s, 2);
      if j > 2 && j + 1 < |s| && s[j + 1] == '}' then
        assert forall k :: 2 <= k < j ==> s[k] != '}';
        assert forall c :: c in s[2..j] ==> c != '}';
        Some(j + 2)
      else None
    else None
  }

  /** The left-to-right scan shared by re.sub and re.findall: a placeholder
    * where one starts, otherwise one plain character. */
  function Pieces(s: string): (ps: seq<Piece>)
    decreases |s|
  {
    if |s| == 0 then []
    else match HoleEnd(s)
      case Some(n) => [Hole(s[2..n - 2])] + Pieces(s[n..])
      case None => [Chr(s[0])] + Pieces(s[1..])
  }

  /** The text a piece came from. */
  function Unparse(ps: seq<Piece>): string
  {
    if |ps| == 0 then ""
    else (match ps[0] case Chr(c) => [c] case Hole(x) => "{{" + x + "}}") + Unparse(ps[1..])
  }

  /** The message with every placeholder replaced by %v. */
  function Format(ps: seq<Piece>): string
  {
    if |ps| == 0 then ""
    else (match ps[0] case Chr(c) => [c] case Hole(_) => "%v") + Format(ps[1..])
  }

  /** The placeholder contents, in order. */
  function Args(ps: seq<Piece>): (xs: seq<string>)
    ensures |xs| <= |ps|
  {
    if |ps| == 0 then []
    else (match ps[0] case Chr(_) => [] case Hole(x) => [x]) + Args(ps[1..])
  }

  function StripAll(xs: seq<string>): (ys: seq<string>)
    ensures |ys| == |xs| && forall i :: 0 <= i < |xs| ==> ys[i] == Text.Strip(xs[i])
  {
    if |xs| == 0 then [] else [Text.Strip(xs[0])] + StripAll(xs[1..])
  }

  /** The scan loses nothing: putting the braces back gives the message. */
  lemma {:induction false} PiecesRoundTrip(s: string)
    ensures Unparse(Pieces(s)) == s
    decreases |s|
  {
    if |s| > 0 {
      match HoleEnd(s)
      case Some(n) =>
        var ps := Pieces(s[n..]);
        PiecesRoundTrip(s[n..]);
        assert Pieces(s) == [Hole(s[2..n - 2])] + ps;
        assert Unparse([Hole(s[2..n - 2])] + ps) == "{{" + s[2..n - 2] + "}}" + Unparse(ps) by {
          assert ([Hole(s[2..n - 2])] + ps)[1..] == ps;
        }
        HoleSlices(s, n);
      case None =>
        var ps := Pieces(s[1..]);
        PiecesRoundTrip(s[1..]);
        assert Pieces(s) == [Chr(s[0])] + ps;
        assert ([Chr(s[0])] + ps)[1..] == ps;
        assert s == [s[0]] + s[1..];
    }
  }

  /** A message split around a placeholder at its head. */
  lemma HoleSlices(s: string, n: nat)
    requires 4 <= n <= |s| && s[0] == '{' && s[1] == '{' && s[n - 2] == '}' && s[n - 1] == '}'
    ensures "{{" + s[2..n - 2] + "}}" + s[n..] == s
  {
    assert s[..2] == "{{" && s[n - 2..n] == "}}";
    assert s == s[..2] + s[2..n - 2] + s[n - 2..n] + s[n..];
  }

  /** Every placeholder holds at least one character and no '}'. */
  lemma {:induction false} HolesWellFormed(s: string)
    ensures forall i :: 0 <= i < |Pieces(s)| && Pieces(s)[i].Hole? ==>
      |Pieces(s)[i].inner| >= 1 && '}' !in Pieces(s)[i].inner
    decreases |s|
  {
    if |s| > 0 {
      match HoleEnd(s)
      case Some(n) => HolesWellFormed(s[n..]);
      case None => HolesWellFormed(s[1..]);
    }
  }

  /** A well-formed placeholder at the head of a message is scanned as one. */
  lemma PlaceholderAtHead(x: string, rest: string)
    requires |x| >= 1 && '}' !in x
    ensures Pieces("{{" + x + "}}" + rest) == [Hole(x)] + Pieces(rest)
  {
    var s := "{{" + x + "}}" + rest;
    var j := FirstClose(s, 2);
    assert forall k :: 2 <= k < 2 + |x| ==> s[k] == x[k - 2];
    assert s[2 + |x|] == '}';
    assert j == 2 + |x|;
    assert HoleEnd(s) == Some(4 + |x|);
    assert s[2..2 + |x|] == x;
    assert s[4 + |x|..] == rest;
  }

  /** Without a placeholder the format is the message itself. */
  lemma {:induction false} NoArgsFormatVerbatim(ps: seq<Piece>)
    requires |Args(ps)| == 0
    ensures Format(ps) == Unparse(ps)
  {
    if |ps| > 0 {
      assert ps[0].Chr?;
      NoArgsFormatVerbatim(ps[1..]);
    }
  }

  /** make_rego_print: with placeholders, a sprintf over the %v format (with
    * '"' turned into "'") and the stripped expressions; without, the text
    * printed verbatim. */
  function MakeRegoPrint(text: string): (r: string)
    ensures Text.StartsWith(r, "print(") && Text.EndsWith(r, ")")
  {
    var ps := Pieces(text);
    var vals := Args(ps);
    var r :=
      if |vals| != 0 then
        "print(sprintf(\"" + Text.ReplaceChar(Format(ps), '"', "'") + "\", [" + Text.Join(StripAll(vals), ", ") + "]))"
      else "print(\"" + text + "\")";
    assert r[..6] == "print(";
    r
  }

  /** The sprintf format of a message with placeholders: its %v form, free
    * of '"'. */
  function SprintfFormat(text: string): (f: string)
    ensures '"' !in f
  {
    Text.ReplaceChar(Format(Pieces(text)), '"', "'")
  }

  /** make_rego_print in its two shapes, stated through the scan. */
  lemma MakeRegoPrintShape(text: string)
    ensures |Args(Pieces(text))| == 0 ==> MakeRegoPrint(text) == "print(\"" + Format(Pieces(text)) + "\")"
    ensures |Args(Pieces(text))| != 0 ==>
      MakeRegoPrint(text) == "print(sprintf(\"" + SprintfFormat(text) + "\", ["
                             + Text.Join(StripAll(Args(Pieces(text))), ", ") + "]))"
  {
    if |Args(Pieces(text))| == 0 {
      NoArgsFormatVerbatim(Pieces(text));
      PiecesRoundTrip(text);
    }
  }

  /** "{{ x }}" gives print(sprintf("%v", [x])): the expression is
    * stripped. */
  lemma MakeRegoPrintExample(msg: string)
    requires msg == "{{ x }}"
    ensures MakeRegoPrint(msg) == "print(sprintf(\"%v\", [x]))"
  {
    SingleHoleParts(msg);
    SprintfText("%v", "x");
  }

  lemma SprintfText(f: string, a: string)
    requires f == "%v" && a == "x"
    ensures "print(sprintf(\"" + f + "\", [" + a + "]))" == "print(sprintf(\"%v\", [x]))"
  {
    assert "print(sprintf(\"" + "%v" == "print(sprintf(\"%v";
    assert "print(sprintf(\"%v" + "\", [" == "print(sprintf(\"%v\", [";
    assert "print(sprintf(\"%v\", [" + "x" == "print(sprintf(\"%v\", [x";
    assert "print(sprintf(\"%v\", [x" + "]))" == "print(sprintf(\"%v\", [x]))";
  }

  lemma SingleHoleParts(msg: string)
    requires msg == "{{ x }}"
    ensures Pieces(msg) == [Hole(" x ")]
    ensures Format(Pieces(msg)) == "%v" && Args(Pieces(msg)) == [" x "]
    ensures Text.Join(StripAll([" x "]), ", ") == "x"
    ensures Text.ReplaceChar("%v", '"', "'") == "%v"
  {
    SingleHolePieces(msg);
    SingleHoleFormat(" x ");
    SingleHoleArgs();
    PercentVKept();
  }

  lemma SingleHolePieces(msg: string)
    requires msg == "{{ x }}"
    ensures Pieces(msg) == [Hole(" x ")]
  {
    PlaceholderAtHead(" x ", "");
    assert msg == "{{" + " x " + "}}" + "";
  }

  lemma SingleHoleFormat(x: string)
    ensures Format([Hole(x)]) == "%v" && Args([Hole(x)]) == [x]
  {
    assert [Hole(x)][1..] == [];
  }

  lemma SingleHoleArgs()
    ensures Text.Join(StripAll([" x "]), ", ") == "x"
  {
    StripExample(" x ");
    assert StripAll([" x "]) == ["x"];
    assert Text.Join(["x"], ", ") == "x";
  }

  lemma PercentVKept()
    ensures Text.ReplaceChar("%v", '"', "'") == "%v"
  {
    assert Text.ReplaceChar("v", '"', "'") == "v";
  }

  lemma StripExample(x: string)
    requires x == " x "
    ensures Text.Strip(x) == "x"
  {
    TrimLeftExample(x);
    TrimRightExample("x ");
  }

  lemma TrimLeftExample(x: string)
    requires x == " x "
    ensures Text.TrimLeft(x) == "x "
  {
    assert Text.IsSpace(x[0]);
    assert x[1..] == "x ";
    assert !Text.IsSpace("x "[0]);
  }

  lemma TrimRightExample(y: string)
    requires y == "x "
    ensures Text.TrimRight(y) == "x"
  {
    assert Text.IsSpace(y[|y| - 1]);
    assert y[..|y| - 1] == "x";
    assert !Text.IsSpace("x"[0]);
  }

  /** A message without placeholders is printed as it is. */
  lemma MakeRegoPrintPlainExample()
    ensures MakeRegoPrint("ok") == "print(\"ok\")"
  {
    assert HoleEnd("ok").None?;
    assert HoleEnd("k").None?;
    assert Pieces("ok") == [Chr('o'), Chr('k')];
    assert "print(\"" + "ok" == "print(\"ok";
    assert "print(\"ok" + "\")" == "print(\"ok\")";
  }

  /** Plain characters that cannot open a placeholder are scanned one by
    * one ahead of the rest. */
  lemma {:induction false} PrefixChars(p: string, rest: string)
    requires '{' !in p
    ensures Pieces(p + rest) == seq(|p|, i requires 0 <= i < |p| => Chr(p[i])) + Pieces(rest)
    decreases |p|
  {
    if |p| > 0 {
      assert (p + rest)[0] == p[0];
      assert (p + rest)[1..] == p[1..] + rest;
      PrefixChars(p[1..], rest);
      assert seq(|p|, i requires 0 <= i < |p| => Chr(p[i]))
          == [Chr(p[0])] + seq(|p| - 1, i requires 0 <= i < |p| - 1 => Chr(p[1..][i]));
    } else {
      assert p + rest == rest;
    }
  }

  // ---------------------------------------------------------------------
  // The rule template
  // ---------------------------------------------------------------------

  const StepSeparator: string := "\n    "

  /** make_func_from_cond over action_func_template. */
  function RuleText(kind: string, steps: seq<string>): string
  {
    "\n" + kind + " = true if {\n    " + Text.Join(steps, StepSeparator) + "\n} else = false\n"
  }

  /** A two-step rule as the lines of the output. */
  lemma RuleLines(kind: string, cond: string, printStep: string)
    ensures RuleText(kind, [cond, printStep]) ==
      Text.Join(["", kind + " = true if {", "    " + cond, "    " + printStep, "} else = false", ""], "\n")
  {
    StepsJoin(cond, printStep);
    RuleLinesJoin(kind, cond, printStep);
    RuleTextOfTwo(kind, cond, printStep);
  }

  lemma StepsJoin(cond: string, printStep: string)
    ensures Text.Join([cond, printStep], StepSeparator) == cond + StepSeparator + printStep
  {
    assert [cond, printStep][1..] == [printStep];
  }

  lemma RuleLinesJoin(kind: string, cond: string, printStep: string)
    ensures Text.Join(["", kind + " = true if {", "    " + cond, "    " + printStep, "} else = false", ""], "\n")
         == "" + "\n" + (kind + " = true if {" + "\n" + ("    " + cond + "\n" + ("    " + printStep + "\n" + ("} else = false" + "\n" + ""))))
  {
    var l5 := [""];
    var l4 := ["} else = false"] + l5;
    var l3 := ["    " + printStep] + l4;
    var l2 := ["    " + cond] + l3;
    var l1 := [kind + " = true if {"] + l2;
    assert ["", kind + " = true if {", "    " + cond, "    " + printStep, "} else = false", ""] == [""] + l1;
    assert Text.Join(l4, "\n") == "} else = false" + "\n" + "";
    assert Text.Join(l3, "\n") == "    " + printStep + "\n" + Text.Join(l4, "\n");
    assert Text.Join(l2, "\n") == "    " + cond + "\n" + Text.Join(l3, "\n");
    assert Text.Join(l1, "\n") == kind + " = true if {" + "\n" + Text.Join(l2, "\n");
  }

  lemma RuleTextOfTwo(kind: string, cond: string, printStep: string)
    ensures "\n" + kind + " = true if {\n    " + (cond + StepSeparator + printStep) + "\n} else = false\n"
         == "" + "\n" + (kind + " = true if {" + "\n" + ("    " + cond + "\n" + ("    " + printStep + "\n" + ("} else = false" + "\n" + ""))))
  {
    RuleTemplatePieces();
    Regroup("\n", kind, " = true if {", "    ", cond, printStep, "} else = false");
  }

  lemma RuleTemplatePieces()
    ensures " = true if {\n    " == " = true if {" + "\n" + "    "
    ensures "\n} else = false\n" == "\n" + "} else = false" + "\n"
    ensures StepSeparator == "\n" + "    "
  {
  }

  lemma Regroup(n: string, k: string, h: string, sp: string, c: string, p: string, t: string)
    ensures n + k + (h + n + sp) + (c + (n + sp) + p) + (n + t + n)
         == "" + n + (k + h + n + (sp + c + n + (sp + p + n + (t + n + ""))))
  {
  }

  /** OPATranspiler.action_to_rule: an unsupported kind raises ValueError;
    * otherwise a rule whose steps are the root condition function's name and
    * the message print. */
  function ActionToRule(a: PolicyAction, validActions: seq<string>, rootFunc: string): (r: Result<string>)
    ensures r.Err? <==> a.kind !in validActions
    ensures r.Err? ==> r.error == UnsupportedAction(a.kind, validActions)
    ensures r.Ok? ==> r.value == Text.Join(["", a.kind + " = true if {", "    " + rootFunc,
                                            "    " + MakeRegoPrint(a.args.msg), "} else = false", ""], "\n")
  {
    if a.kind !in validActions then Err(UnsupportedAction(a.kind, validActions))
    else
      RuleLines(a.kind, rootFunc, MakeRegoPrint(a.args.msg));
      Ok(RuleText(a.kind, [rootFunc, MakeRegoPrint(a.args.msg)]))
  }

  // ---------------------------------------------------------------------
  // policyset_to_rego
  // ---------------------------------------------------------------------

  /** The parts of a RegoPolicy this model fills in. */
  datatype RegoPolicy = RegoPolicy(
    package: string,
    tags: seq<string>,
    vars: PyDict.Dict<string, Json.Json>,
    target: Option<string>,
    rootFunc: string,
    actionFunc: string)

  /** One policy: the name (KeyError when missing), the condition through
    * the expression transpiler `trace`, which yields the root function's
    * name, then the first action (IndexError when there is none). */
  function TranspilePolicy(pol: PolicyAst, vars: PyDict.Dict<string, Json.Json>, validActions: seq<string>,
                           trace: (Option<Cond>, string) -> Result<string>, toRego: RegoPolicy -> string): (r: Result<Models.Policy>)
    ensures pol.name.None? ==> r.Err? && r.error.KeyError?
    ensures pol.name.Some? && trace(pol.condition, Tokens.CleanErrorToken(pol.name.value)).Ok? && |pol.actions| == 0
            ==> r.Err? && r.error.IndexError?
    ensures r.Ok? ==> pol.name.Some? && |pol.actions| >= 1 && pol.actions[0].kind in validActions
    ensures r.Ok? ==> !r.value.isPolicybook && r.value.language == "rego"
    ensures r.Ok? ==> r.value.metadata.tags == pol.tags
                      && r.value.metadata.attrs == [("package", Tokens.CleanErrorToken(pol.name.value))]
    ensures r.Ok? && pol.target.Some? ==> r.value.metadata.target == pol.target.value
  {
    var name :- if pol.name.None? then Err(KeyError("name")) else Ok(pol.name.value);
    var package := Tokens.CleanErrorToken(name);
    var root :- trace(pol.condition, package);
    var first :- if |pol.actions| == 0 then Err(IndexError) else Ok(pol.actions[0]);
    var actionFunc :- ActionToRule(first, validActions, root);
    var rp := RegoPolicy(package, pol.tags, vars, pol.target, root, actionFunc);
    Ok(Models.Policy("", "", false, "rego",
                     Models.EmptyMetadata.(target := pol.target.GetOr(""), tags := pol.tags, attrs := [("package", package)]),
                     toRego(rp), None))
  }

  /** Only the first action is compiled: the rest make no difference. */
  lemma OnlyFirstAction(pol: PolicyAst, more: seq<PolicyAction>, vars: PyDict.Dict<string, Json.Json>, validActions: seq<string>,
                        trace: (Option<Cond>, string) -> Result<string>, toRego: RegoPolicy -> string)
    requires |pol.actions| >= 1
    ensures TranspilePolicy(pol.(actions := pol.actions + more), vars, validActions, trace, toRego)
         == TranspilePolicy(pol, vars, validActions, trace, toRego)
    ensures TranspilePolicy(pol.(actions := [pol.actions[0]]), vars, validActions, trace, toRego)
         == TranspilePolicy(pol, vars, validActions, trace, toRego)
  {
    assert (pol.actions + more)[0] == pol.actions[0];
  }

  function TranspileAll(pols: seq<PolicyAst>, vars: PyDict.Dict<string, Json.Json>, validActions: seq<string>,
                        trace: (Option<Cond>, string) -> Result<string>, toRego: RegoPolicy -> string): (r: Result<seq<Models.Policy>>)
    ensures r.Ok? ==> |r.value| == |pols|
    ensures r.Ok? ==> forall i :: 0 <= i < |pols| ==> TranspilePolicy(pols[i], vars, validActions, trace, toRego) == Ok(r.value[i])
    ensures r.Err? ==> exists i :: 0 <= i < |pols| && TranspilePolicy(pols[i], vars, validActions, trace, toRego).Err?
    decreases |pols|
  {
    if |pols| == 0 then Ok([])
    else
      var head :- TranspilePolicy(pols[0], vars, validActions, trace, toRego);
      var tail :- TranspileAll(pols[1..], vars, validActions, trace, toRego);
      Ok([head] + tail)
  }

  /** OPATranspiler.policyset_to_rego: a document without a policy set or a
    * set without a name is rejected; otherwise one Rego policy per entry, in
    * order. */
  function PolicysetToRego(doc: Document, validActions: seq<string>,
                           trace: (Option<Cond>, string) -> Result<string>, toRego: RegoPolicy -> string): (r: Result<seq<Models.Policy>>)
    ensures doc.None? ==> r == Err(ValueError("no policy found"))
    ensures doc.Some? && doc.value.name.None? ==> r == Err(ValueError("name field is empty"))
    ensures r.Ok? ==> |r.value| == |doc.value.policies|
    ensures r.Ok? ==> forall i :: 0 <= i < |r.value| ==>
      r.value[i].language == "rego" && !r.value[i].isPolicybook
      && doc.value.policies[i].name.Some?
      && r.value[i].metadata.attrs == [("package", Tokens.CleanErrorToken(doc.value.policies[i].name.value))]
  {
    if doc.None? then Err(ValueError("no policy found"))
    else if doc.value.name.None? then Err(ValueError("name field is empty"))
    else TranspileAll(doc.value.policies, doc.value.vars, validActions, trace, toRego)
  }
}
