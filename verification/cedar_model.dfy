// CedarPolicy: one transpiled policy and its Cedar text.

module CedarModel {
  import opened Wrappers
  import Text
  import Json
  import Models
  import opened CedarExpression

  /** A transpiled policy. `target` is None when the policybook gave none;
    * the condition and exception are renderer output. */
  datatype CedarPolicy = CedarPolicy(
    condition: Body,
    exception: Body,
    actionFunc: string,
    tags: seq<string>,
    target: Option<string>,
    name: string)

  /** str(target) inside the target comment: None prints as "None". */
  function TargetText(t: Option<string>): string
  {
    match t
    case None => "None"
    case Some(s) => s
  }

  function TargetLine(t: Option<string>): string
  {
    "// __target__ = \"" + TargetText(t) + "\""
  }

  function TagsLine(tags: seq<string>): string
  {
    "// __tags__ = " + Json.DumpsStrings(tags)
  }

  /** A condition block is written only for a non-empty body that is not
    * the empty connective "()". */
  predicate ShowBlock(b: Body)
  {
    Truthy(b) && b != Text("()")
  }

  /** `<keyword> {\n    <body>\n}` */
  function Block(keyword: string, b: Body): string
  {
    keyword + " {\n    " + PyStr(b) + "\n}"
  }

  /** The `content` list of to_cedar, in order. */
  function Sections(p: CedarPolicy): (ss: seq<string>)
    ensures |ss| >= 3 && ss[0] == TargetLine(p.target) && ss[|ss| - 1] == ";\n"
    ensures |ss| == 3 + (if |p.tags| > 0 then 1 else 0) + (if ShowBlock(p.condition) then 1 else 0)
                      + (if ShowBlock(p.exception) then 1 else 0)
  {
    [TargetLine(p.target)]
    + (if |p.tags| > 0 then [TagsLine(p.tags)] else [])
    + [p.actionFunc]
    + (if ShowBlock(p.condition) then [Block("when", p.condition)] else [])
    + (if ShowBlock(p.exception) then [Block("unless", p.exception)] else [])
    + [";\n"]
  }

  /** CedarPolicy.to_cedar: the sections joined by newlines. */
  function ToCedar(p: CedarPolicy): (r: string)
  {
    Text.Join(Sections(p), "\n")
  }

  /** The text opens with the target comment and closes with the ";" line. */
  lemma ToCedarFrame(p: CedarPolicy)
    ensures Text.StartsWith(ToCedar(p), TargetLine(p.target) + "\n")
    ensures Text.EndsWith(ToCedar(p), "\n;\n")
  {
    var ss := Sections(p);
    JoinFrame(ss, "\n");
  }

  /** A join of at least two parts starts with the first part and the
    * separator and ends with the separator and the last part. */
  lemma JoinFrame(ss: seq<string>, sep: string)
    requires |ss| >= 2
    ensures Text.StartsWith(Text.Join(ss, sep), ss[0] + sep)
    ensures Text.EndsWith(Text.Join(ss, sep), sep + ss[|ss| - 1])
  {
    JoinStarts(ss, sep);
    JoinEnds(ss, sep);
  }

  lemma JoinStarts(ss: seq<string>, sep: string)
    requires |ss| >= 2
    ensures Text.StartsWith(Text.Join(ss, sep), ss[0] + sep)
  {
    assert Text.Join(ss, sep) == ss[0] + sep + Text.Join(ss[1..], sep);
    PrefixOfConcat(ss[0] + sep, Text.Join(ss[1..], sep));
  }

  lemma JoinEnds(ss: seq<string>, sep: string)
    requires |ss| >= 2
    ensures Text.EndsWith(Text.Join(ss, sep), sep + ss[|ss| - 1])
  {
    var init := ss[..|ss| - 1];
    assert init + [ss[|ss| - 1]] == ss;
    Text.JoinSnoc(init, ss[|ss| - 1], sep);
    SuffixOfConcat(Text.Join(init, sep), sep + ss[|ss| - 1]);
  }

  lemma PrefixOfConcat(a: string, b: string)
    ensures Text.StartsWith(a + b, a)
  {
    assert (a + b)[..|a|] == a;
  }

  lemma SuffixOfConcat(a: string, b: string)
    ensures Text.EndsWith(a + b, b)
  {
    assert (a + b)[|a + b| - |b|..] == b;
  }

  /** The sections are the target line, the tag line when there are tags,
    * the action text, a when block exactly when the condition is shown, an
    * unless block exactly when the exception is shown, and the ";" line. */
  lemma SectionsLayout(p: CedarPolicy)
    ensures var ss := Sections(p);
      var k := if |p.tags| > 0 then 2 else 1;
      (|p.tags| > 0 ==> ss[1] == TagsLine(p.tags))
      && ss[k] == p.actionFunc
      && (ShowBlock(p.condition) ==> ss[k + 1] == Block("when", p.condition))
      && (ShowBlock(p.exception) ==> ss[|ss| - 2] == Block("unless", p.exception))
      && (!ShowBlock(p.condition) && !ShowBlock(p.exception) ==> |ss| == k + 2)
  {
  }

  /** CedarPolicy.to_single_policy: a Cedar-language Policy whose body is
    * the Cedar text and whose metadata carries the tags and the target. */
  function ToSinglePolicy(p: CedarPolicy): (r: Models.Policy)
    ensures r.language == "cedar" && r.name == p.name && !r.isPolicybook
    ensures r.metadata.tags == p.tags && r.body == ToCedar(p)
    ensures p.target.Some? ==> r.metadata.target == p.target.value
    ensures r.path == "" && r.policybookData.None?
  {
    Models.Policy("", p.name, false, "cedar",
                  Models.EmptyMetadata.(tags := p.tags, target := p.target.GetOr("")),
                  ToCedar(p), None)
  }
}
