// The Cedar expression transpiler: a condition tree rendered to the text of
// a Cedar `when`/`unless` body.

module CedarExpression {
  import opened Wrappers
  import Text
  import Json
  import opened Policybook

  /** The value a renderer returns. Literal leaves come back as raw Python
    * booleans, integers and floats, not as text. */
  datatype Body = Text(s: string) | BoolLit(b: bool) | IntLit(i: int) | FloatLit(repr: string)

  /** str(value), as an f-string interpolates it. */
  function PyStr(b: Body): string
  {
    match b
    case Text(s) => s
    case BoolLit(v) => if v then "True" else "False"
    case IntLit(i) => Text.IntToStr(i)
    case FloatLit(repr) => repr
  }

  /** bool(value) */
  predicate Truthy(b: Body)
  {
    match b
    case Text(s) => s != ""
    case BoolLit(v) => v
    case IntLit(i) => i != 0
    case FloatLit(repr) => repr != "0.0" && repr != "-0.0"
  }

  function ToJson(b: Body): Json.Json
  {
    match b
    case Text(s) => Json.JStr(s)
    case BoolLit(v) => Json.JBool(v)
    case IntLit(i) => Json.JInt(i)
    case FloatLit(repr) => Json.JFloat(repr)
  }

  /** BaseExpression.change_data_format: a string literal is quoted, a
    * reference is its path, null is "null", a list becomes the JSON text of
    * its converted items, other literals stay raw values. */
  function ChangeDataFormat(t: Term): (r: Body)
    ensures !t.Boolean? && !t.Integer? && !t.Float? ==> r.Text?
    ensures t.Str? ==> r == Text("\"" + t.s + "\"")
    ensures t.NullType? ==> r == Text("null")
    ensures t.ContextRef? || t.PrincipalRef? || t.ActionRef? || t.ResourceRef? ==> r == Text(t.path)
    ensures t.Variable? ==> r == Text(t.name)
    ensures t.Boolean? ==> r == BoolLit(t.b)
    ensures t.Integer? ==> r == IntLit(t.i)
    ensures t.Float? ==> r == FloatLit(t.repr)
    decreases t
  {
    match t
    case ListLit(items) =>
      Text(Json.Dumps(Json.JArr(seq(|items|, i requires 0 <= i < |items| => ToJson(ChangeDataFormat(items[i]))))))
    case Str(s) => Text("\"" + s + "\"")
    case ContextRef(p) => Text(p)
    case PrincipalRef(p) => Text(p)
    case ActionRef(p) => Text(p)
    case ResourceRef(p) => Text(p)
    case Variable(n) => Text(n)
    case Boolean(v) => BoolLit(v)
    case Integer(i) => IntLit(i)
    case Float(repr) => FloatLit(repr)
    case NullType => Text("null")
  }

  /** ExpressionTranspiler.handle_non_operator_expression for a term: the
    * same conversion, except that a list is not a dict and renders as "". */
  function RenderLeaf(t: Term): (r: Body)
  {
    match t
    case Str(s) => Text("\"" + s + "\"")
    case ContextRef(p) => Text(p)
    case PrincipalRef(p) => Text(p)
    case ActionRef(p) => Text(p)
    case ResourceRef(p) => Text(p)
    case Variable(n) => Text(n)
    case Boolean(v) => BoolLit(v)
    case Integer(i) => IntLit(i)
    case Float(repr) => FloatLit(repr)
    case NullType => Text("null")
    case ListLit(_) => Text("")
  }

  /** The two converters agree on every term but a list. */
  lemma RenderLeafIsChangeDataFormat(t: Term)
    ensures RenderLeaf(t) == if t.ListLit? then Text("") else ChangeDataFormat(t)
  {
  }

  const AndSeparator: string := "&&\n    "
  const OrSeparator: string := "||\n    "

  /** The loop of AndAllExpression/OrAnyExpression.make_cedar: the running
    * text starts empty and takes the first condition while it is still "";
    * afterwards conditions are appended after the separator. Concatenating a
    * non-string raises TypeError. */
  function Accumulate(acc: Body, conds: seq<Body>, sep: string): (r: Result<Body>)
    ensures r.Err? ==> r.error.TypeError?
    decreases |conds|
  {
    if |conds| == 0 then Ok(acc)
    else
      var next :-
        if acc == Text("") then Ok(conds[0])
        else if acc.Text? && conds[0].Text? then Ok(Text(acc.s + sep + conds[0].s))
        else Err(TypeError("can only concatenate str to str"));
      Accumulate(next, conds[1..], sep)
  }

  /** AndAllExpression.make_cedar (sep "&&\n    ") and OrAnyExpression.make_cedar
    * (sep "||\n    "). */
  function MakeCedar(conds: seq<Body>, sep: string): Result<string>
  {
    var blocks :- Accumulate(Text(""), conds, sep);
    if blocks.Text? then Ok("(" + blocks.s + ")") else Err(TypeError("can only concatenate str to str"))
  }

  predicate AllText(conds: seq<Body>)
  {
    forall i :: 0 <= i < |conds| ==> conds[i].Text?
  }

  function Texts(conds: seq<Body>): (ts: seq<string>)
    requires AllText(conds)
    ensures |ts| == |conds|
    ensures forall i :: 0 <= i < |conds| ==> ts[i] == conds[i].s
  {
    if |conds| == 0 then [] else [conds[0].s] + Texts(conds[1..])
  }

  lemma {:induction false} AccumulateTexts(a: string, conds: seq<Body>, sep: string)
    requires AllText(conds) && sep != ""
    ensures Accumulate(Text(a), conds, sep) ==
      Ok(Text(if a == "" then Text.Join(Text.DropLeadingEmpty(Texts(conds)), sep)
              else if |conds| == 0 then a
              else a + sep + Text.Join(Texts(conds), sep)))
    decreases |conds|
  {
    if |conds| > 0 {
      var t := conds[0].s;
      var rest := conds[1..];
      assert AllText(rest);
      assert Texts(conds) == [t] + Texts(rest);
      if a == "" {
        AccumulateTexts(t, rest, sep);
        if t == "" {
          assert Text.DropLeadingEmpty(Texts(conds)) == Text.DropLeadingEmpty(Texts(rest));
        } else {
          assert Text.DropLeadingEmpty(Texts(conds)) == Texts(conds);
        }
      } else {
        var a' := a + sep + t;
        assert |a'| > 0;
        AccumulateTexts(a', rest, sep);
        if |rest| > 0 {
          assert Text.Join(Texts(conds), sep) == t + sep + Text.Join(Texts(rest), sep);
          assert a' + sep + Text.Join(Texts(rest), sep) == a + sep + (t + sep + Text.Join(Texts(rest), sep));
        }
      }
    }
  }

  lemma {:induction false} AccumulateNonText(acc: Body, conds: seq<Body>, sep: string)
    requires !acc.Text? || !AllText(conds)
    ensures Accumulate(acc, conds, sep).Err? || !Accumulate(acc, conds, sep).value.Text?
    decreases |conds|
  {
    if |conds| > 0 {
      var next := if acc == Text("") then Ok(conds[0])
                  else if acc.Text? && conds[0].Text? then Ok(Text(acc.s + sep + conds[0].s))
                  else Err(TypeError("can only concatenate str to str"));
      if next.Ok? {
        if AllText(conds[1..]) {
          assert !conds[0].Text? || !acc.Text?;
        } else {
        }
        AccumulateNonText(next.value, conds[1..], sep);
      }
    }
  }

  /** make_cedar joins the condition texts with the separator inside
    * parentheses, skipping the empty texts that come before the first
    * non-empty one; one that is not text makes it raise TypeError. */
  lemma MakeCedarSpec(conds: seq<Body>, sep: string)
    requires sep != ""
    ensures AllText(conds) ==> MakeCedar(conds, sep) == Ok("(" + Text.Join(Text.DropLeadingEmpty(Texts(conds)), sep) + ")")
    ensures !AllText(conds) ==> MakeCedar(conds, sep).Err? && MakeCedar(conds, sep).error.TypeError?
  {
    if AllText(conds) {
      AccumulateTexts("", conds, sep);
    } else {
      AccumulateNonText(Text(""), conds, sep);
    }
  }

  /** With no empty condition the output is exactly "(" + sep.join(conds) + ")". */
  lemma MakeCedarNoEmpty(conds: seq<Body>, sep: string)
    requires sep != "" && AllText(conds)
    requires forall i :: 0 <= i < |conds| ==> conds[i].s != ""
    ensures MakeCedar(conds, sep) == Ok("(" + Text.Join(Texts(conds), sep) + ")")
  {
    MakeCedarSpec(conds, sep);
    if |conds| > 0 {
      assert Texts(conds)[0] != "";
    }
  }

  /** EqualsExpression (negated = false) and NotEqualsExpression (negated =
    * true). A Boolean right-hand side is compared with `==` against true or
    * false; any other is written with `==` or `!=` after the same conversion
    * as the left-hand side. A list right-hand side has no .items(). */
  function RenderCompare(negated: bool, lhs: Term, rhs: Term): (r: Result<Body>)
    ensures r.Ok? ==> r.value.Text?
    ensures r.Err? <==> rhs.ListLit?
  {
    var l := PyStr(ChangeDataFormat(lhs));
    match rhs
    case ListLit(_) => Err(AttributeError("'list' object has no attribute 'items'"))
    case Boolean(b) => Ok(Text(l + (if b != negated then " == true" else " == false")))
    case _ => Ok(Text(l + (if negated then " != " else " == ") + PyStr(ChangeDataFormat(rhs))))
  }

  /** `x != b` for a Boolean b is rendered as `x == !b`; for any other
    * right-hand side `!=` replaces `==` and nothing else changes. */
  lemma NotEqualsMirrorsEquals(lhs: Term, rhs: Term)
    requires !rhs.ListLit?
    ensures rhs.Boolean? ==> RenderCompare(true, lhs, rhs) == RenderCompare(false, lhs, Boolean(!rhs.b))
    ensures !rhs.Boolean? ==>
      var l := PyStr(ChangeDataFormat(lhs));
      var r := PyStr(ChangeDataFormat(rhs));
      RenderCompare(false, lhs, rhs) == Ok(Text(l + " == " + r)) &&
      RenderCompare(true, lhs, rhs) == Ok(Text(l + " != " + r))
  {
  }

  /** ExpressionTranspiler.trace_ast_tree: the dispatcher tests And/All,
    * then Or/Any, then Equals/NotEquals, and sends everything else to the
    * leaf renderer, which renders unknown nodes as "". */
  function Trace(c: Cond): Result<Body>
    decreases c
  {
    match c
    case And(l, r) =>
      var lb :- Trace(l);
      var rb :- Trace(r);
      var s :- MakeCedar([lb, rb], AndSeparator);
      Ok(Text(s))
    case All(cs) =>
      var bs :- TraceEach(cs);
      var s :- MakeCedar(bs, AndSeparator);
      Ok(Text(s))
    case Or(l, r) =>
      var lb :- Trace(l);
      var rb :- Trace(r);
      var s :- MakeCedar([lb, rb], OrSeparator);
      Ok(Text(s))
    case Any(cs) =>
      var bs :- TraceEach(cs);
      var s :- MakeCedar(bs, OrSeparator);
      Ok(Text(s))
    case Compare(Equals, lhs, rhs) => RenderCompare(false, lhs, rhs)
    case Compare(NotEquals, lhs, rhs) => RenderCompare(true, lhs, rhs)
    case Leaf(t) => Ok(RenderLeaf(t))
    case _ => Ok(Text(""))
  }

  /** The children of All/Any rendered in order; the first failure wins. */
  function TraceEach(cs: seq<Cond>): (r: Result<seq<Body>>)
    ensures r.Ok? ==> |r.value| == |cs| && forall i :: 0 <= i < |cs| ==> Trace(cs[i]) == Ok(r.value[i])
    decreases cs
  {
    if |cs| == 0 then Ok([])
    else
      var head :- Trace(cs[0]);
      var tail :- TraceEach(cs[1..]);
      Ok([head] + tail)
  }

  /** The body of a policy's condition: a missing condition is the empty
    * dict, which the leaf renderer turns into "". */
  function ConditionBody(c: Option<Cond>): Result<Body>
  {
    match c
    case None => Ok(Text(""))
    case Some(cond) => Trace(cond)
  }

  /** Children that each render to text render together without error. */
  lemma {:induction false} TraceEachTexts(cs: seq<Cond>)
    requires forall i :: 0 <= i < |cs| ==> Trace(cs[i]).Ok? && Trace(cs[i]).value.Text?
    ensures TraceEach(cs).Ok? && AllText(TraceEach(cs).value)
  {
    if |cs| > 0 {
      TraceEachTexts(cs[1..]);
    }
  }

  /** An Equals/NotEquals node whose right-hand side is not a list renders
    * to text. */
  lemma ComparisonIsText(c: Cond)
    requires c.Compare? && (c.op == Equals || c.op == NotEquals) && !c.rhs.ListLit?
    ensures Trace(c).Ok? && Trace(c).value.Text?
  {
    if c.op == Equals {
      assert Trace(c) == RenderCompare(false, c.lhs, c.rhs);
    } else {
      assert Trace(c) == RenderCompare(true, c.lhs, c.rhs);
    }
  }

  /** Equals/NotEquals children whose right-hand sides are not lists
    * render together to texts. */
  lemma ComparisonsAreTexts(cs: seq<Cond>)
    requires forall i :: 0 <= i < |cs| ==> cs[i].Compare? && (cs[i].op == Equals || cs[i].op == NotEquals) && !cs[i].rhs.ListLit?
    ensures TraceEach(cs).Ok? && AllText(TraceEach(cs).value)
  {
    forall i | 0 <= i < |cs|
      ensures Trace(cs[i]).Ok? && Trace(cs[i]).value.Text?
    {
      ComparisonIsText(cs[i]);
    }
    TraceEachTexts(cs);
  }

  /** An `all` of Equals/NotEquals children renders without error to a text. */
  lemma AllOfComparisons(cs: seq<Cond>)
    requires forall i :: 0 <= i < |cs| ==> cs[i].Compare? && (cs[i].op == Equals || cs[i].op == NotEquals) && !cs[i].rhs.ListLit?
    ensures Trace(All(cs)).Ok? && Trace(All(cs)).value.Text?
  {
    ComparisonsAreTexts(cs);
    TraceAll(cs);
  }

  /** An `any` of Equals/NotEquals children renders without error to a text. */
  lemma AnyOfComparisons(cs: seq<Cond>)
    requires forall i :: 0 <= i < |cs| ==> cs[i].Compare? && (cs[i].op == Equals || cs[i].op == NotEquals) && !cs[i].rhs.ListLit?
    ensures Trace(Any(cs)).Ok? && Trace(Any(cs)).value.Text?
  {
    ComparisonsAreTexts(cs);
    TraceAny(cs);
  }

  /** `all` fails with its first failing child; children that all render
    * to text are joined with "&&" inside parentheses, leading empty texts
    * skipped; a child that renders to a raw literal is a TypeError. */
  lemma TraceAll(cs: seq<Cond>)
    ensures TraceEach(cs).Err? ==> Trace(All(cs)) == Err(TraceEach(cs).error)
    ensures TraceEach(cs).Ok? && AllText(TraceEach(cs).value) ==>
      Trace(All(cs)) == Ok(Text("(" + Text.Join(Text.DropLeadingEmpty(Texts(TraceEach(cs).value)), AndSeparator) + ")"))
    ensures TraceEach(cs).Ok? && !AllText(TraceEach(cs).value) ==>
      Trace(All(cs)).Err? && Trace(All(cs)).error.TypeError?
  {
    if TraceEach(cs).Ok? {
      MakeCedarSpec(TraceEach(cs).value, AndSeparator);
    }
  }

  /** `any` is `all` with "||" in place of "&&". */
  lemma TraceAny(cs: seq<Cond>)
    ensures TraceEach(cs).Err? ==> Trace(Any(cs)) == Err(TraceEach(cs).error)
    ensures TraceEach(cs).Ok? && AllText(TraceEach(cs).value) ==>
      Trace(Any(cs)) == Ok(Text("(" + Text.Join(Text.DropLeadingEmpty(Texts(TraceEach(cs).value)), OrSeparator) + ")"))
    ensures TraceEach(cs).Ok? && !AllText(TraceEach(cs).value) ==>
      Trace(Any(cs)).Err? && Trace(Any(cs)).error.TypeError?
  {
    if TraceEach(cs).Ok? {
      MakeCedarSpec(TraceEach(cs).value, OrSeparator);
    }
  }

  /** Renderings from the transpiler's own condition test cases: integers. */
  lemma IntegerCompareExamples()
    ensures Trace(Compare(Equals, ContextRef("context.range.i"), Integer(1))) == Ok(Text("context.range.i == 1"))
    ensures Trace(Compare(NotEquals, ContextRef("context.i"), Integer(0))) == Ok(Text("context.i != 0"))
  {
    EqualsOneExample();
    NotEqualsZeroExample();
  }

  lemma EqualsOneExample()
    ensures Trace(Compare(Equals, ContextRef("context.range.i"), Integer(1))) == Ok(Text("context.range.i == 1"))
  {
    assert Text.IntToStr(1) == "1" by {
      assert Text.NatToStr(1) == [Text.DigitChar(1)];
    }
    assert "context.range.i" + " == " + "1" == "context.range.i == 1";
  }

  lemma NotEqualsZeroExample()
    ensures Trace(Compare(NotEquals, ContextRef("context.i"), Integer(0))) == Ok(Text("context.i != 0"))
  {
    assert Text.IntToStr(0) == "0" by {
      assert Text.NatToStr(0) == [Text.DigitChar(0)];
    }
    assert "context.i" + " != " + "0" == "context.i != 0";
  }

  /** A string literal is quoted; a float keeps its text. */
  lemma LiteralCompareExamples()
    ensures Trace(Compare(Equals, ContextRef("context.become_user"), Str("malicious-user")))
      == Ok(Text("context.become_user == \"malicious-user\""))
    ensures Trace(Compare(Equals, ContextRef("context.pi"), Float("3.1415"))) == Ok(Text("context.pi == 3.1415"))
  {
    StringCompareExample();
    FloatCompareExample();
  }

  lemma StringCompareExample()
    ensures Trace(Compare(Equals, ContextRef("context.become_user"), Str("malicious-user")))
      == Ok(Text("context.become_user == \"malicious-user\""))
  {
    QuotedUserText();
  }

  lemma QuotedUserText()
    ensures "context.become_user" + " == " + ("\"" + "malicious-user" + "\"") == "context.become_user == \"malicious-user\""
  {
    assert "\"" + "malicious-user" + "\"" == "\"malicious-user\"";
  }

  lemma FloatCompareExample()
    ensures Trace(Compare(Equals, ContextRef("context.pi"), Float("3.1415"))) == Ok(Text("context.pi == 3.1415"))
  {
    assert "context.pi" + " == " + "3.1415" == "context.pi == 3.1415";
  }

  /** A Boolean right-hand side is always compared with `==`. */
  lemma BooleanCompareExamples()
    ensures Trace(Compare(Equals, ContextRef("context.b"), Boolean(true))) == Ok(Text("context.b == true"))
    ensures Trace(Compare(NotEquals, ContextRef("context.b"), Boolean(true))) == Ok(Text("context.b == false"))
  {
    assert "context.b" + " == true" == "context.b == true";
    assert "context.b" + " == false" == "context.b == false";
  }

  /** `all` over three variables joins them with "&&" inside parentheses. */
  lemma AllExample()
    ensures Trace(All([Leaf(Variable("condition1")), Leaf(Variable("condition2")), Leaf(Variable("condition3"))]))
      == Ok(Text("(condition1" + AndSeparator + "condition2" + AndSeparator + "condition3)"))
  {
    var cs := [Leaf(Variable("condition1")), Leaf(Variable("condition2")), Leaf(Variable("condition3"))];
    var bs := [Text("condition1"), Text("condition2"), Text("condition3")];
    ThreeVariablesTrace(cs, bs);
    MakeCedarNoEmpty(bs, AndSeparator);
    ThreeVariablesJoin(bs);
    TraceAll(cs);
    ThreeVariablesText();
  }

  lemma ThreeVariablesTrace(cs: seq<Cond>, bs: seq<Body>)
    requires cs == [Leaf(Variable("condition1")), Leaf(Variable("condition2")), Leaf(Variable("condition3"))]
    requires bs == [Text("condition1"), Text("condition2"), Text("condition3")]
    ensures TraceEach(cs) == Ok(bs)
  {
    assert Trace(cs[0]) == Ok(bs[0]);
    assert Trace(cs[1]) == Ok(bs[1]);
    assert Trace(cs[2]) == Ok(bs[2]);
    TraceEachTexts(cs);
    var r := TraceEach(cs).value;
    assert r[0] == bs[0] && r[1] == bs[1] && r[2] == bs[2];
    assert r == bs;
  }

  lemma ThreeVariablesJoin(bs: seq<Body>)
    requires bs == [Text("condition1"), Text("condition2"), Text("condition3")]
    ensures AllText(bs)
    ensures Text.Join(Texts(bs), AndSeparator) == "condition1" + AndSeparator + ("condition2" + AndSeparator + "condition3")
  {
    var ts := ["condition1", "condition2", "condition3"];
    assert Texts(bs) == ts;
    assert Text.Join(ts[2..], AndSeparator) == "condition3";
    assert Text.Join(ts[1..], AndSeparator) == "condition2" + AndSeparator + "condition3";
  }

  lemma ThreeVariablesText()
    ensures "(" + ("condition1" + AndSeparator + ("condition2" + AndSeparator + "condition3")) + ")"
      == "(condition1" + AndSeparator + "condition2" + AndSeparator + "condition3)"
  {
  }
}
