// The result formatter: the accepted output formats, path shortening,
// message truncation, and the plain report's grouping of the targets that
// were not validated into violations, warnings and info, deduplicated and
// counted per target type.  Colours and terminal width are left out, so the
// texts are those printed without a terminal.

module ResultFormatter {
  import opened Wrappers
  import Text
  import PyDict
  import Seqs
  import Models
  import PolicyInput

  const SupportedFormats: seq<string> := ["plain", "event_stream", "rest", "json"]

  /** The message of an unsupported format: the list's repr, then a plain
    * string literal, so the braces are printed as they stand. */
  const FormatTypeMessage: string := "`format_type` must be one of ['plain', 'event_stream', 'rest', 'json'], but received {self.format_type}"

  /** ResultFormatter.__post_init__: the format must be one of the four. */
  function ValidateFormat(formatType: Option<string>): (r: Result<string>)
    ensures r.Ok? <==> formatType.Some? && formatType.value in SupportedFormats
    ensures r.Ok? ==> r.value == formatType.value
    ensures r.Err? ==> r.error.ValueError?
  {
    if formatType.None? || formatType.value !in SupportedFormats then
      Err(ValueError(FormatTypeMessage))
    else Ok(formatType.value)
  }

  /** The base directory with a trailing "/". */
  function BasePrefix(baseDir: string): (r: string)
    requires baseDir != ""
    ensures Text.EndsWith(r, "/") && Text.StartsWith(r, baseDir)
  {
    var r := if baseDir[|baseDir| - 1] != '/' then baseDir + "/" else baseDir;
    assert r[..|baseDir|] == baseDir;
    r
  }

  /** shorten_filepath: a path under the base directory loses that prefix;
    * any other path is kept.  An empty base directory cannot be indexed. */
  function ShortenFilepath(baseDir: string, filepath: string): (r: Result<string>)
    ensures r.Err? <==> baseDir == ""
    ensures r.Ok? && Text.StartsWith(filepath, BasePrefix(baseDir)) ==> BasePrefix(baseDir) + r.value == filepath
    ensures r.Ok? && !Text.StartsWith(filepath, BasePrefix(baseDir)) ==> r.value == filepath
  {
    if baseDir == "" then Err(IndexError)
    else
      var prefix := BasePrefix(baseDir);
      if Text.StartsWith(filepath, prefix) then
        assert filepath == prefix + filepath[|prefix|..];
        Ok(filepath[|prefix|..])
      else Ok(filepath)
  }

  /** A path written as base + "/" + rest is shown as rest, with or without
    * the trailing "/" on the base. */
  lemma ShortenUnderBase(baseDir: string, rest: string)
    requires baseDir != "" && baseDir[|baseDir| - 1] != '/'
    ensures ShortenFilepath(baseDir, baseDir + "/" + rest) == Ok(rest)
    ensures ShortenFilepath(baseDir + "/", baseDir + "/" + rest) == Ok(rest)
  {
    var prefix := baseDir + "/";
    assert (prefix + rest)[..|prefix|] == prefix;
    assert (prefix + rest)[|prefix|..] == rest;
    assert baseDir + "/" + rest == prefix + rest;
  }

  /** The path shown in the report: shortened only when a base is set. */
  function ShownPath(baseDir: string, filepath: string): string
  {
    if baseDir == "" then filepath else ShortenFilepath(baseDir, filepath).value
  }

  const MaxMessageLength: nat := 120

  /** Messages longer than 120 characters are cut to 120 and marked "...". */
  function Truncate(msg: string): (r: string)
    ensures |msg| <= MaxMessageLength ==> r == msg
    ensures |msg| > MaxMessageLength ==>
      (|r| == MaxMessageLength + 3
       && r[..MaxMessageLength] == msg[..MaxMessageLength] && r[MaxMessageLength..] == "...")
  {
    if |msg| > MaxMessageLength then msg[..MaxMessageLength] + "..." else msg
  }

  /** A truncated message is truncated to itself again. */
  lemma TruncateIdempotent(msg: string)
    ensures Truncate(Truncate(msg)) == Truncate(msg)
  {
    if |msg| > MaxMessageLength {
      var r := Truncate(msg);
      assert r[..MaxMessageLength] == msg[..MaxMessageLength];
    }
  }

  // ---------------------------------------------------------------------
  // The plain report

  /** One (file, policy, target) triple of the result tree. */
  datatype Row = Row(filepath: string, policy: Models.PolicyResult, target: Models.TargetResult)

  function TargetRows(path: string, p: Models.PolicyResult): (rs: seq<Row>)
    ensures |rs| == |p.targets|
    ensures forall k :: 0 <= k < |rs| ==> rs[k] == Row(path, p, p.targets[k])
  {
    seq(|p.targets|, k requires 0 <= k < |p.targets| => Row(path, p, p.targets[k]))
  }

  function PolicyRows(path: string, ps: seq<Models.PolicyResult>): (rs: seq<Row>)
    ensures forall r :: r in rs <==>
      exists j, k :: 0 <= j < |ps| && 0 <= k < |ps[j].targets| && r == Row(path, ps[j], ps[j].targets[k])
  {
    if |ps| == 0 then []
    else
      var rest := PolicyRows(path, ps[1..]);
      assert forall j :: 0 <= j < |ps| - 1 ==> ps[1..][j] == ps[j + 1];
      TargetRows(path, ps[0]) + rest
  }

  /** Every target of the tree, file by file, policy by policy, in order. */
  function Rows(files: seq<Models.FileResult>): (rs: seq<Row>)
    ensures forall r :: r in rs <==>
      exists i, j, k :: 0 <= i < |files| && 0 <= j < |files[i].policies| && 0 <= k < |files[i].policies[j].targets|
        && r == Row(files[i].path, files[i].policies[j], files[i].policies[j].targets[k])
  {
    if |files| == 0 then []
    else
      var rest := Rows(files[1..]);
      assert forall i :: 0 <= i < |files| - 1 ==> files[1..][i] == files[i + 1];
      PolicyRows(files[0].path, files[0].policies) + rest
  }

  /** The rows print_plain reports: `validated` is exactly False. */
  function Reported(rows: seq<Row>): (rs: seq<Row>)
    ensures forall r :: r in rs <==> r in rows && r.target.validated == Models.Failure
    ensures |rs| <= |rows|
  {
    if |rows| == 0 then []
    else
      var rest := Reported(rows[1..]);
      assert forall r :: r in rows <==> r == rows[0] || r in rows[1..];
      if rows[0].target.validated == Models.Failure then [rows[0]] + rest else rest
  }

  /** The kind of report entry an action makes; other actions make none. */
  datatype Category = Violation | Warning | InfoMessage | Unreported

  function CategoryOf(a: Models.ActionKind): Category
  {
    match a
    case Deny => Violation
    case Allow => Violation
    case Warn => Warning
    case Info => InfoMessage
    case _ => Unreported
  }

  /** The per-target detail print_plain reads back. */
  datatype Detail = Detail(
    targetType: string,
    name: string,
    policyName: string,
    filepath: string,
    lines: string,
    message: string,
    category: Category)

  /** The detail of one row: its lines rendered by CodeBlock.dict2str when
    * the row has any (which fails unless begin is an int), "" otherwise. */
  function DetailOf(row: Row): (r: Result<Detail>)
    ensures r.Err? <==> |row.target.lines| > 0 && PolicyInput.DictToStr(row.target.lines).Err?
    ensures r.Ok? ==>
      (r.value.category == CategoryOf(row.target.actionType)
       && r.value.targetType == row.policy.targetType && r.value.name == row.target.name
       && r.value.filepath == row.filepath)
  {
    var lines :- if |row.target.lines| > 0 then PolicyInput.DictToStr(row.target.lines) else Ok("");
    Ok(Detail(row.policy.targetType, row.target.name, row.policy.policyName, row.filepath, lines,
              Text.Strip(row.target.message), CategoryOf(row.target.actionType)))
  }

  function Details(rows: seq<Row>): Result<seq<Detail>>
  {
    Seqs.MapResult(rows, DetailOf)
  }

  /** The details are the rows' details in order, and fail exactly when one
    * row's detail fails. */
  lemma DetailsSpec(rows: seq<Row>)
    ensures Details(rows).Ok? <==> forall i :: 0 <= i < |rows| ==> DetailOf(rows[i]).Ok?
    ensures Details(rows).Ok? ==>
      |Details(rows).value| == |rows|
      && forall i :: 0 <= i < |rows| ==> Details(rows).value[i] == DetailOf(rows[i]).value
  {
    Seqs.MapResultSpec(rows, DetailOf);
  }

  /** f"{type} {name} {filepath} {lines}": the deduplication key. */
  function Pattern(d: Detail, baseDir: string): string
  {
    d.targetType + " " + d.name + " " + ShownPath(baseDir, d.filepath) + " " + d.lines
  }

  type Groups = PyDict.Dict<string, seq<string>>

  /** groups.get(t, []) */
  function Lookup(g: Groups, t: string): seq<string>
  {
    PyDict.Get(g, t).GetOr([])
  }

  /** `if pattern not in list: groups[t] = list + [pattern]` */
  function AddPattern(g: Groups, t: string, pattern: string): Groups
  {
    var l := Lookup(g, t);
    if pattern in l then g else PyDict.Put(g, t, l + [pattern])
  }

  /** The groups of one category, built detail by detail in order. */
  function Group(ds: seq<Detail>, baseDir: string, c: Category): Groups
    decreases |ds|
  {
    if |ds| == 0 then []
    else
      var d := ds[|ds| - 1];
      var g := Group(ds[..|ds| - 1], baseDir, c);
      if d.category == c then AddPattern(g, d.targetType, Pattern(d, baseDir)) else g
  }

  /** The well-formedness of a group map: one entry per type, no pattern
    * listed twice, and a type is listed exactly when it has a pattern. */
  ghost predicate GroupsWellFormed(g: Groups)
  {
    && PyDict.UniqueKeys(g)
    && (forall t :: Seqs.NoDup(Lookup(g, t)))
    && (forall t :: t in PyDict.Keys(g) <==> |Lookup(g, t)| > 0)
  }

  /** Some detail of the category has this type and pattern. */
  predicate Reports(ds: seq<Detail>, baseDir: string, c: Category, t: string, pattern: string)
  {
    exists i :: 0 <= i < |ds| && Shows(ds[i], baseDir, c, t, pattern)
  }

  /** This detail is of the category and has this type and pattern. */
  predicate Shows(d: Detail, baseDir: string, c: Category, t: string, pattern: string)
  {
    d.category == c && d.targetType == t && Pattern(d, baseDir) == pattern
  }

  lemma AddPatternSpec(g: Groups, t: string, pattern: string)
    requires GroupsWellFormed(g)
    ensures GroupsWellFormed(AddPattern(g, t, pattern))
    ensures forall t', p' :: p' in Lookup(AddPattern(g, t, pattern), t') <==>
      p' in Lookup(g, t') || (t' == t && p' == pattern)
  {
    var l := Lookup(g, t);
    if pattern !in l {
      PutLookup(g, t, l + [pattern]);
      Seqs.NoDupSnoc(l, pattern);
      AppendWellFormed(g, t, pattern);
    }
  }

  /** After groups[t] = v, the lookup of t is v and every other is as before. */
  lemma PutLookup(g: Groups, t: string, v: seq<string>)
    ensures forall t' :: Lookup(PyDict.Put(g, t, v), t') == if t' == t then v else Lookup(g, t')
  {
    forall t' ensures Lookup(PyDict.Put(g, t, v), t') == if t' == t then v else Lookup(g, t')
    {
      PyDict.GetPut(g, t, v, t');
    }
  }

  lemma AppendWellFormed(g: Groups, t: string, pattern: string)
    requires GroupsWellFormed(g)
    requires pattern !in Lookup(g, t) && Seqs.NoDup(Lookup(g, t) + [pattern])
    requires forall t' :: Lookup(PyDict.Put(g, t, Lookup(g, t) + [pattern]), t') ==
                          (if t' == t then Lookup(g, t) + [pattern] else Lookup(g, t'))
    ensures GroupsWellFormed(PyDict.Put(g, t, Lookup(g, t) + [pattern]))
  {
    var v := Lookup(g, t) + [pattern];
    PyDict.PutUnique(g, t, v);
    PyDict.PutKeys(g, t, v);
  }

  /** Each category's groups list, per type, exactly the distinct patterns
    * of that category's details, each once. */
  lemma {:induction false} GroupSpec(ds: seq<Detail>, baseDir: string, c: Category)
    ensures GroupsWellFormed(Group(ds, baseDir, c))
    ensures forall t, pattern :: pattern in Lookup(Group(ds, baseDir, c), t) <==> Reports(ds, baseDir, c, t, pattern)
    decreases |ds|
  {
    if |ds| > 0 {
      var init := ds[..|ds| - 1];
      var d := ds[|ds| - 1];
      GroupSpec(init, baseDir, c);
      var g := Group(init, baseDir, c);
      if d.category == c {
        AddPatternSpec(g, d.targetType, Pattern(d, baseDir));
      }
      forall t, pattern
        ensures Reports(ds, baseDir, c, t, pattern) <==>
          Reports(init, baseDir, c, t, pattern) || (d.category == c && d.targetType == t && Pattern(d, baseDir) == pattern)
      {
        ReportsSnoc(ds, baseDir, c, t, pattern);
      }
    }
  }

  /** A detail reports a pattern when the last one does or one before it. */
  lemma ReportsSnoc(ds: seq<Detail>, baseDir: string, c: Category, t: string, pattern: string)
    requires |ds| > 0
    ensures Reports(ds, baseDir, c, t, pattern) <==>
      Reports(ds[..|ds| - 1], baseDir, c, t, pattern) || Shows(ds[|ds| - 1], baseDir, c, t, pattern)
  {
    if Reports(ds, baseDir, c, t, pattern) {
      ReportsFromSnoc(ds, baseDir, c, t, pattern);
    }
    if Reports(ds[..|ds| - 1], baseDir, c, t, pattern) {
      ReportsInInit(ds, baseDir, c, t, pattern);
    }
  }

  lemma ReportsFromSnoc(ds: seq<Detail>, baseDir: string, c: Category, t: string, pattern: string)
    requires |ds| > 0 && Reports(ds, baseDir, c, t, pattern)
    ensures Reports(ds[..|ds| - 1], baseDir, c, t, pattern) || Shows(ds[|ds| - 1], baseDir, c, t, pattern)
  {
    var i :| 0 <= i < |ds| && Shows(ds[i], baseDir, c, t, pattern);
    if i < |ds| - 1 {
      assert ds[..|ds| - 1][i] == ds[i];
    }
  }

  lemma ReportsInInit(ds: seq<Detail>, baseDir: string, c: Category, t: string, pattern: string)
    requires |ds| > 0 && Reports(ds[..|ds| - 1], baseDir, c, t, pattern)
    ensures Reports(ds, baseDir, c, t, pattern)
  {
    var init := ds[..|ds| - 1];
    var i :| 0 <= i < |init| && Shows(init[i], baseDir, c, t, pattern);
    assert ds[i] == init[i];
  }

  /** The count a type is shown with is the number of distinct patterns. */
  lemma GroupCount(ds: seq<Detail>, baseDir: string, c: Category, t: string)
    ensures var l := Lookup(Group(ds, baseDir, c), t);
      Seqs.NoDup(l) && forall p :: p in l <==> Reports(ds, baseDir, c, t, p)
  {
    GroupSpec(ds, baseDir, c);
  }

  /** "<count> <type>", with "s" when the count is above one. */
  function Fragment(t: string, l: seq<string>): (r: string)
    ensures |r| > 0
  {
    Text.NatToStr(|l|) + " " + t + (if |l| > 1 then "s" else "")
  }

  function Fragments(g: Groups): (fs: seq<string>)
    ensures |fs| == |g|
    ensures forall i :: 0 <= i < |g| ==> fs[i] == Fragment(g[i].0, g[i].1)
  {
    seq(|g|, i requires 0 <= i < |g| => Fragment(g[i].0, g[i].1))
  }

  /** The loop as written: ", <fragment>" appended per entry. */
  function CountAccumulated(g: Groups): string
    decreases |g|
  {
    if |g| == 0 then "" else CountAccumulated(g[..|g| - 1]) + ", " + Fragment(g[|g| - 1].0, g[|g| - 1].1)
  }

  /** The count text: the accumulated text without its leading ", ". */
  function CountText(g: Groups): string
  {
    var s := CountAccumulated(g);
    if |s| >= 2 then s[2..] else s
  }

  /** The accumulated text is ", " before the fragments joined by ", ". */
  lemma {:induction false} CountAccumulatedJoin(g: Groups)
    ensures |g| > 0 ==> CountAccumulated(g) == ", " + Text.Join(Fragments(g), ", ")
    ensures |g| == 0 ==> CountAccumulated(g) == ""
    decreases |g|
  {
    if |g| > 1 {
      var init := g[..|g| - 1];
      CountAccumulatedJoin(init);
      assert Fragments(g) == Fragments(init) + [Fragment(g[|g| - 1].0, g[|g| - 1].1)];
      Text.JoinSnoc(Fragments(init), Fragment(g[|g| - 1].0, g[|g| - 1].1), ", ");
    } else if |g| == 1 {
      assert CountAccumulated(g[..0]) == "";
      assert Fragments(g) == [Fragment(g[0].0, g[0].1)];
    }
  }

  /** The count text is the fragments joined by ", ", and is empty exactly
    * when no type was counted. */
  lemma CountTextJoin(g: Groups)
    ensures CountText(g) == Text.Join(Fragments(g), ", ")
    ensures CountText(g) == "" <==> |g| == 0
  {
    CountAccumulatedJoin(g);
    if |g| > 0 {
      var j := Text.Join(Fragments(g), ", ");
      assert (", " + j)[2..] == j;
      JoinNonEmpty(Fragments(g), ", ");
    }
  }

  lemma {:induction false} JoinNonEmpty(xs: seq<string>, sep: string)
    requires |xs| > 0 && |xs[0]| > 0
    ensures |Text.Join(xs, sep)| > 0
  {
  }

  const NoViolations: string := "No violations are detected"

  /** The closing lines of the plain report. */
  function SummaryLines(violations: Groups, warnings: Groups, infos: Groups): seq<string>
  {
    var v, w, i := CountText(violations), CountText(warnings), CountText(infos);
    (if v != "" then ["Violations are detected! in " + v] else [])
    + (if w != "" then ["Warning messages present in " + w] else [])
    + (if i != "" then ["Info messages present in " + i] else [])
    + (if v == "" && w == "" && i == "" then [NoViolations] else [])
  }

  /** "No violations are detected" closes the report exactly when all three
    * category maps are empty. */
  lemma {:induction false} NoViolationsIffEmpty(violations: Groups, warnings: Groups, infos: Groups)
    ensures NoViolations in SummaryLines(violations, warnings, infos) <==>
      |violations| == 0 && |warnings| == 0 && |infos| == 0
  {
    CountTextJoin(violations);
    CountTextJoin(warnings);
    CountTextJoin(infos);
    var v, w, i := CountText(violations), CountText(warnings), CountText(infos);
    var a := if v != "" then ["Violations are detected! in " + v] else [];
    var b := if w != "" then ["Warning messages present in " + w] else [];
    var c := if i != "" then ["Info messages present in " + i] else [];
    var d := if v == "" && w == "" && i == "" then [NoViolations] else [];
    assert NoViolations[0] == 'N';
    NotHeaded(a, "Violations are detected! in ", v);
    NotHeaded(b, "Warning messages present in ", w);
    NotHeaded(c, "Info messages present in ", i);
    assert SummaryLines(violations, warnings, infos) == a + b + c + d;
  }

  /** A line that starts otherwise than "N" is not the closing line. */
  lemma NotHeaded(xs: seq<string>, head: string, text: string)
    requires |head| > 0 && head[0] != 'N'
    requires xs == [] || xs == [head + text]
    ensures NoViolations !in xs
  {
    if xs != [] {
      assert (head + text)[0] == head[0];
    }
  }

  /** The summary part of print_plain: the reported rows' details grouped by
    * category, then the closing lines. */
  function PlainSummary(files: seq<Models.FileResult>, baseDir: string): (r: Result<seq<string>>)
    ensures r.Ok? <==> Details(Reported(Rows(files))).Ok?
  {
    var ds :- Details(Reported(Rows(files)));
    Ok(SummaryLines(Group(ds, baseDir, Violation), Group(ds, baseDir, Warning), Group(ds, baseDir, InfoMessage)))
  }

  /** The report is silent about a row whose action is neither deny, allow,
    * warn nor info. */
  predicate Silent(r: Row)
  {
    CategoryOf(r.target.actionType) == Unreported
  }

  /** End to end: the plain report says "No violations are detected"
    * exactly when no target that failed validation carries a deny, allow,
    * warn or info action. */
  lemma PlainSummaryNoViolations(files: seq<Models.FileResult>, baseDir: string)
    requires PlainSummary(files, baseDir).Ok?
    ensures NoViolations in PlainSummary(files, baseDir).value <==>
      forall r :: r in Rows(files) && r.target.validated == Models.Failure ==> Silent(r)
  {
    var rows := Reported(Rows(files));
    var ds := Details(rows).value;
    var gv, gw, gi := Group(ds, baseDir, Violation), Group(ds, baseDir, Warning), Group(ds, baseDir, InfoMessage);
    NoViolationsIffEmpty(gv, gw, gi);
    GroupsAllEmpty(rows, baseDir);
    assert (forall r :: r in rows ==> Silent(r)) <==>
      (forall r :: r in Rows(files) && r.target.validated == Models.Failure ==> Silent(r));
  }

  /** All three maps are empty exactly when every reported row is silent. */
  lemma GroupsAllEmpty(rows: seq<Row>, baseDir: string)
    requires Details(rows).Ok?
    ensures var ds := Details(rows).value;
      (|Group(ds, baseDir, Violation)| == 0 && |Group(ds, baseDir, Warning)| == 0
       && |Group(ds, baseDir, InfoMessage)| == 0)
      <==> forall r :: r in rows ==> Silent(r)
  {
    var ds := Details(rows).value;
    GroupsEmptyIffUnreported(ds, baseDir);
    DetailsSilent(rows);
  }

  predicate AllUnreported(ds: seq<Detail>)
  {
    forall i :: 0 <= i < |ds| ==> ds[i].category == Unreported
  }

  lemma GroupsEmptyIffUnreported(ds: seq<Detail>, baseDir: string)
    ensures (|Group(ds, baseDir, Violation)| == 0 && |Group(ds, baseDir, Warning)| == 0
             && |Group(ds, baseDir, InfoMessage)| == 0) <==> AllUnreported(ds)
  {
    GroupEmpty(ds, baseDir, Violation);
    GroupEmpty(ds, baseDir, Warning);
    GroupEmpty(ds, baseDir, InfoMessage);
  }

  lemma DetailsSilent(rows: seq<Row>)
    requires Details(rows).Ok?
    ensures AllUnreported(Details(rows).value) <==> forall r :: r in rows ==> Silent(r)
  {
    DetailsSpec(rows);
    var ds := Details(rows).value;
    if !AllUnreported(ds) {
      var i :| 0 <= i < |ds| && ds[i].category != Unreported;
      assert ds[i] == DetailOf(rows[i]).value;
      assert !Silent(rows[i]);
    }
    if exists r :: r in rows && !Silent(r) {
      var r :| r in rows && !Silent(r);
      var i := IndexOf(rows, r);
      assert ds[i] == DetailOf(rows[i]).value;
    }
  }

  function IndexOf(rows: seq<Row>, r: Row): (i: nat)
    requires r in rows
    ensures i < |rows| && rows[i] == r
  {
    if rows[0] == r then 0 else 1 + IndexOf(rows[1..], r)
  }

  /** A category's map is empty exactly when no detail falls in it. */
  lemma GroupEmpty(ds: seq<Detail>, baseDir: string, c: Category)
    ensures |Group(ds, baseDir, c)| == 0 <==> forall i :: 0 <= i < |ds| ==> ds[i].category != c
  {
    GroupSpec(ds, baseDir, c);
    var g := Group(ds, baseDir, c);
    if |g| > 0 {
      var t := g[0].0;
      assert t in PyDict.Keys(g);
      var p := Lookup(g, t)[0];
      assert Reports(ds, baseDir, c, t, p);
    }
    if exists i :: 0 <= i < |ds| && ds[i].category == c {
      var i :| 0 <= i < |ds| && ds[i].category == c;
      assert Reports(ds, baseDir, c, ds[i].targetType, Pattern(ds[i], baseDir));
      assert Pattern(ds[i], baseDir) in Lookup(g, ds[i].targetType);
    }
  }

  /** The file counts line: the summary must exist, so a result that never
    * had a single evaluation added cannot be printed. */
  function FilesLine(result: Models.EvaluationResult): (r: Result<string>)
    ensures r.Err? <==> result.summary.None?
  {
    match result.summary
    case None => Err(AttributeError("'NoneType' object has no attribute 'files'"))
    case Some(s) =>
      Ok("... Total files: " + Text.NatToStr(s.totalFiles) + ", Validated: " + Text.IntToStr(s.validated)
         + ", Not Validated: " + Text.NatToStr(s.notValidated))
  }
}
