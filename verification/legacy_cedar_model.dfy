// The older policybook_cedar CedarPolicy: the same layout as the newer
// model plus variable declarations, and condition blocks that are written
// for every body except "()".

module LegacyCedarModel {
  import opened Wrappers
  import Text
  import Json
  import PyDict
  import opened CedarExpression
  import CedarModel

  datatype LegacyCedarPolicy = LegacyCedarPolicy(
    package: string,
    condition: Body,
    exception: Body,
    actionFunc: string,
    vars: PyDict.Dict<string, Json.Json>,
    tags: seq<string>,
    target: Option<string>)

  /** One "name = <json>" line per variable, in mapping order. */
  function VarLines(vars: PyDict.Dict<string, Json.Json>): (ls: seq<string>)
    ensures |ls| == |vars|
    ensures forall i :: 0 <= i < |vars| ==> ls[i] == vars[i].0 + " = " + Json.Dumps(vars[i].1)
  {
    if |vars| == 0 then [] else [vars[0].0 + " = " + Json.Dumps(vars[0].1)] + VarLines(vars[1..])
  }

  /** The older block test: anything but "()" is written, even "". */
  predicate ShowLegacyBlock(b: Body)
  {
    b != Text("()")
  }

  /** The `content` list of the older to_cedar. */
  function LegacySections(p: LegacyCedarPolicy): (ss: seq<string>)
    ensures |ss| >= 3 && ss[0] == CedarModel.TargetLine(p.target) && ss[|ss| - 1] == ";\n"
  {
    [CedarModel.TargetLine(p.target)]
    + (if |p.tags| > 0 then [CedarModel.TagsLine(p.tags)] else [])
    + VarLines(p.vars)
    + [p.actionFunc]
    + (if ShowLegacyBlock(p.condition) then [CedarModel.Block("when", p.condition)] else [])
    + (if ShowLegacyBlock(p.exception) then [CedarModel.Block("unless", p.exception)] else [])
    + [";\n"]
  }

  /** CedarPolicy.to_cedar of the older model. */
  function LegacyToCedar(p: LegacyCedarPolicy): string
  {
    Text.Join(LegacySections(p), "\n")
  }

  /** The variable lines sit after the target and tag lines and before the
    * action text, in mapping order. */
  lemma VarLinesPlacement(p: LegacyCedarPolicy)
    ensures var k := if |p.tags| > 0 then 2 else 1;
      var ss := LegacySections(p);
      |ss| > k + |p.vars|
      && (forall i :: 0 <= i < |p.vars| ==> ss[k + i] == p.vars[i].0 + " = " + Json.Dumps(p.vars[i].1))
      && ss[k + |p.vars|] == p.actionFunc
  {
  }

  /** An empty condition still produces an empty `when` block. */
  lemma EmptyBodyStillBlocks(p: LegacyCedarPolicy)
    requires p.condition == Text("")
    ensures CedarModel.Block("when", p.condition) in LegacySections(p)
    ensures !CedarModel.ShowBlock(p.condition)
  {
    var ss := LegacySections(p);
    var k := (if |p.tags| > 0 then 1 else 0) + |p.vars| + 2;
    assert ss[k] == CedarModel.Block("when", p.condition);
  }

  /** The older model as the newer one sees it (no package, no variables). */
  function Newer(p: LegacyCedarPolicy): CedarModel.CedarPolicy
  {
    CedarModel.CedarPolicy(p.condition, p.exception, p.actionFunc, p.tags, p.target, "")
  }

  /** Without variables, and with bodies that are either "()" or non-empty,
    * the two models write the same text; the block tests differ only on
    * falsy bodies. */
  lemma LegacyAgreesWithNewer(p: LegacyCedarPolicy)
    requires |p.vars| == 0
    requires Truthy(p.condition) || p.condition == Text("()")
    requires Truthy(p.exception) || p.exception == Text("()")
    ensures LegacyToCedar(p) == CedarModel.ToCedar(Newer(p))
  {
    assert LegacySections(p) == CedarModel.Sections(Newer(p));
  }

  /** The block tests differ exactly on falsy bodies. */
  lemma BlockTestsDiffer(b: Body)
    ensures ShowLegacyBlock(b) && !CedarModel.ShowBlock(b) <==> !Truthy(b)
  {
  }
}
