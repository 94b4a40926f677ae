// The pure helpers of utils.py: the "*" pattern matcher used by the config
// and the engines, the module-name lookups on a task, and the
// indentation-based YAML block finders.

module Utils {
  import opened Wrappers
  import Text
  import PyDict
  import Seqs

  // ---------------------------------------------------------------------
  // match_str_expression
  // ---------------------------------------------------------------------

  /** One pattern character against one text character once every '*' has
    * become ".*": a '.' is the regex dot (anything but a newline), every
    * other character stands for itself. */
  predicate CharMatches(pc: char, tc: char)
  {
    if pc == '.' then tc != '\n' else pc == tc
  }

  /** re.match of the rewritten pattern: some prefix of `t` matches `p`, a
    * '*' standing for a run of non-newline characters. */
  predicate MatchPrefix(p: string, t: string)
    decreases |p| + |t|
  {
    if |p| == 0 then true
    else if p[0] == '*' then
      MatchPrefix(p[1..], t) || (|t| > 0 && t[0] != '\n' && MatchPrefix(p, t[1..]))
    else
      |t| > 0 && CharMatches(p[0], t[0]) && MatchPrefix(p[1..], t[1..])
  }

  /** match_str_expression(pattern, text). */
  function MatchStr(pattern: string, text: string): (r: bool)
    ensures pattern == "" || pattern == "*" ==> r
    ensures '*' !in pattern ==> (r <==> pattern == "" || pattern == text)
  {
    if pattern == "" || pattern == "*" then true
    else if '*' in pattern then MatchPrefix(pattern, text)
    else pattern == text
  }

  /** The match is anchored at the start only: text after a match is
    * ignored. */
  lemma {:induction false} TrailingTextAllowed(p: string, t: string, u: string)
    requires MatchPrefix(p, t)
    ensures MatchPrefix(p, t + u)
    decreases |p| + |t|
  {
    if |p| == 0 {
    } else if p[0] == '*' {
      if MatchPrefix(p[1..], t) {
        TrailingTextAllowed(p[1..], t, u);
      } else {
        TrailingTextAllowed(p, t[1..], u);
        assert (t + u)[1..] == t[1..] + u;
      }
    } else {
      TrailingTextAllowed(p[1..], t[1..], u);
      assert (t + u)[1..] == t[1..] + u;
    }
  }

  /** A pattern with no '*' and no '.' matches exactly the texts that start
    * with it. */
  lemma {:induction false} LiteralPrefix(q: string, t: string)
    requires '*' !in q && '.' !in q
    ensures MatchPrefix(q, t) <==> Text.StartsWith(t, q)
    decreases |q|
  {
    if |q| > 0 && |t| > 0 {
      LiteralPrefix(q[1..], t[1..]);
      assert q == [q[0]] + q[1..];
      assert Text.StartsWith(t, q) <==> t[0] == q[0] && Text.StartsWith(t[1..], q[1..]);
    }
  }

  /** A trailing '*' matches the empty run, so "name*" selects every text
    * that starts with "name". */
  lemma PrefixStar(q: string, t: string)
    requires '*' !in q && '.' !in q
    ensures MatchStr(q + "*", t) <==> Text.StartsWith(t, q)
  {
    PrefixStarPrefix(q, t);
    LiteralPrefix(q, t);
    assert '*' in q + "*" by { assert (q + "*")[|q|] == '*'; }
  }

  /** Helper for PrefixStar: a trailing '*' adds nothing to the prefix test. */
  lemma {:induction false} PrefixStarPrefix(q: string, t: string)
    ensures MatchPrefix(q + "*", t) <==> MatchPrefix(q, t)
    decreases |q| + |t|
  {
    if |q| == 0 {
      assert MatchPrefix("", t);
    } else if q[0] == '*' {
      assert (q + "*")[1..] == q[1..] + "*";
      PrefixStarPrefix(q[1..], t);
      if |t| > 0 {
        PrefixStarPrefix(q, t[1..]);
      }
    } else {
      assert (q + "*")[1..] == q[1..] + "*";
      if |t| > 0 {
        PrefixStarPrefix(q[1..], t[1..]);
      }
    }
  }

  /** A leading '*' skips any newline-free run before the rest of the
    * pattern matches. */
  lemma LeadingStar(p: string, t: string)
    ensures MatchPrefix("*" + p, t) <==>
      exists i :: 0 <= i <= |t| && '\n' !in t[..i] && MatchPrefix(p, t[i..])
  {
    if MatchPrefix("*" + p, t) {
      var i := LeadingStarSkip(p, t);
    }
    if exists i :: 0 <= i <= |t| && '\n' !in t[..i] && MatchPrefix(p, t[i..]) {
      var i :| 0 <= i <= |t| && '\n' !in t[..i] && MatchPrefix(p, t[i..]);
      LeadingStarAfterSkip(p, t, i);
    }
  }

  /** Helper for LeadingStar: where a match of "*" + p lets p begin. */
  lemma {:induction false} LeadingStarSkip(p: string, t: string) returns (i: nat)
    requires MatchPrefix("*" + p, t)
    ensures i <= |t| && '\n' !in t[..i] && MatchPrefix(p, t[i..])
    decreases |t|
  {
    var sp := "*" + p;
    assert sp[0] == '*' && sp[1..] == p;
    if MatchPrefix(p, t) {
      assert t[0..] == t && '\n' !in t[..0];
      i := 0;
    } else {
      var j := LeadingStarSkip(p, t[1..]);
      assert t[..j + 1] == [t[0]] + t[1..][..j];
      assert t[j + 1..] == t[1..][j..];
      i := j + 1;
    }
  }

  /** Helper for LeadingStar: skipping a newline-free run and matching p
    * matches "*" + p. */
  lemma {:induction false} LeadingStarAfterSkip(p: string, t: string, i: nat)
    requires i <= |t| && '\n' !in t[..i] && MatchPrefix(p, t[i..])
    ensures MatchPrefix("*" + p, t)
    decreases i
  {
    var sp := "*" + p;
    assert sp[0] == '*' && sp[1..] == p;
    if i == 0 {
      assert t[0..] == t;
    } else {
      assert t[0] == t[..i][0];
      assert t[1..][..i - 1] == t[1..i];
      assert forall c :: c in t[1..i] ==> c in t[..i];
      assert t[1..][i - 1..] == t[i..];
      LeadingStarAfterSkip(p, t[1..], i - 1);
    }
  }

  // ---------------------------------------------------------------------
  // get_module_name_from_task / embed_module_info_with_galaxy
  // ---------------------------------------------------------------------

  /** The module fields of a scanned task. `annotations` stands for what
    * task.get_annotation reads (a key with a default of ""). */
  datatype ModuleTask = ModuleTask(
    moduleName: string,
    moduleFqcn: string,
    moduleInfo: PyDict.Dict<string, string>,
    annotations: PyDict.Dict<string, string>)

  /** task.get_annotation(key, "") */
  function Annotation(t: ModuleTask, key: string): string
  {
    PyDict.Get(t.annotations, key).GetOr("")
  }

  /** get_module_name_from_task: the full module name and the text after its
    * last '.'. */
  function GetModuleName(t: ModuleTask): (r: (string, string))
    ensures '.' !in r.1 && Text.EndsWith(r.0, r.1)
    ensures '.' !in r.0 ==> r.1 == r.0
  {
    var fromInfo := if |t.moduleInfo| > 0 then PyDict.Get(t.moduleInfo, "fqcn").GetOr("") else "";
    var fromModule := if |t.annotations| > 0 && fromInfo == "" then Annotation(t, "module.correct_fqcn") else fromInfo;
    var fromCorrect := if |t.annotations| > 0 && fromModule == "" then Annotation(t, "correct_fqcn") else fromModule;
    var name := if fromCorrect == "" then t.moduleName else fromCorrect;
    (name, ShortName(name))
  }

  /** name.split(".")[-1], taken only when the name has a '.'. */
  function ShortName(name: string): (r: string)
    ensures '.' !in r && Text.EndsWith(name, r)
    ensures '.' !in name ==> r == name
  {
    var r := Text.LastPart(name, '.');
    Text.JoinSplit(name, '.');
    var parts := Text.Split(name, '.');
    assert |parts| > 1 ==> Text.Join(parts, ".") == Text.Join(parts[..|parts| - 1], ".") + "." + r by {
      if |parts| > 1 {
        Text.JoinSnoc(parts[..|parts| - 1], r, ".");
        assert parts[..|parts| - 1] + [r] == parts;
      }
    }
    assert '.' !in name ==> parts == [name] by {
      if '.' !in name {
        Text.SplitJoin([name], '.');
      }
    }
    r
  }

  /** The lookup order: module_info's fqcn, then the two annotations (read
    * only when there are annotations), then the plain module name. */
  lemma ModuleNamePriority(t: ModuleTask)
    ensures var fqcn := PyDict.Get(t.moduleInfo, "fqcn").GetOr("");
      var a1 := Annotation(t, "module.correct_fqcn");
      var a2 := Annotation(t, "correct_fqcn");
      var name := GetModuleName(t).0;
      (|t.moduleInfo| > 0 && fqcn != "" ==> name == fqcn)
      && ((|t.moduleInfo| == 0 || fqcn == "") && |t.annotations| > 0 && a1 != "" ==> name == a1)
      && ((|t.moduleInfo| == 0 || fqcn == "") && |t.annotations| > 0 && a1 == "" && a2 != "" ==> name == a2)
      && (|t.annotations| == 0 && (|t.moduleInfo| == 0 || fqcn == "") ==> name == t.moduleName)
  {
  }

  /** The dotted parts of a name: collection "a.b", short name "c.d". */
  function Collection(fqcn: string): string
  {
    var parts := Text.Split(fqcn, '.');
    Text.Join(parts[..if |parts| < 2 then |parts| else 2], ".")
  }

  function RestName(fqcn: string): string
  {
    var parts := Text.Split(fqcn, '.');
    Text.Join(parts[if |parts| < 2 then |parts| else 2..], ".")
  }

  /** A name with at least two dots is its collection, a dot and its short
    * name. */
  lemma CollectionAndRest(fqcn: string)
    requires |Text.Split(fqcn, '.')| >= 3
    ensures Collection(fqcn) + "." + RestName(fqcn) == fqcn
  {
    var parts := Text.Split(fqcn, '.');
    Text.JoinSplit(fqcn, '.');
    JoinAppend(parts[..2], parts[2..], ".");
    assert parts[..2] + parts[2..] == parts;
  }

  /** Joining two non-empty lists puts one separator between the joins. */
  lemma {:induction false} JoinAppend(xs: seq<string>, ys: seq<string>, sep: string)
    requires |xs| > 0 && |ys| > 0
    ensures Text.Join(xs + ys, sep) == Text.Join(xs, sep) + sep + Text.Join(ys, sep)
    decreases |xs|
  {
    if |xs| == 1 {
      assert (xs + ys)[0] == xs[0] && (xs + ys)[1..] == ys;
    } else {
      JoinAppend(xs[1..], ys, sep);
      assert (xs + ys)[1..] == xs[1..] + ys;
    }
  }

  /** The fully qualified name embed_module_info_with_galaxy settles on: the
    * module itself when dotted, else the first galaxy mapping when that one
    * is dotted, else "". */
  function MappedFqcn(moduleName: string, mappings: PyDict.Dict<string, seq<string>>): (r: string)
    ensures r == "" || '.' in r
    ensures '.' in moduleName ==> r == moduleName
  {
    if '.' in moduleName then moduleName
    else
      var found := PyDict.Get(mappings, moduleName).GetOr([]);
      if |found| > 0 && found[0] != "" && '.' in found[0] then found[0] else ""
  }

  /** embed_module_info_with_galaxy(task, galaxy), given the galaxy's
    * module_name_mappings. */
  function EmbedModuleInfo(t: ModuleTask, mappings: PyDict.Dict<string, seq<string>>): (r: ModuleTask)
    ensures t.moduleName == "" ==> r == t
    ensures r.moduleName == t.moduleName && r.annotations == t.annotations
    ensures |t.moduleInfo| > 0 ==> r.moduleInfo == t.moduleInfo
    ensures '.' in t.moduleName ==> r.moduleFqcn == t.moduleFqcn
  {
    if t.moduleName == "" then t
    else
      var fqcn := MappedFqcn(t.moduleName, mappings);
      var t1 := if '.' !in t.moduleName && fqcn != "" then t.(moduleFqcn := fqcn) else t;
      if |t.moduleInfo| == 0 && fqcn != "" then
        t1.(moduleInfo := InfoOf(fqcn))
      else t1
  }

  /** The module_info recorded for a resolved name. */
  function InfoOf(fqcn: string): PyDict.Dict<string, string>
  {
    [("collection", Collection(fqcn)), ("fqcn", fqcn), ("key", "__unknown__"), ("short_name", RestName(fqcn))]
  }

  lemma InfoOfLookups(fqcn: string)
    ensures PyDict.Get(InfoOf(fqcn), "collection") == Some(Collection(fqcn))
    ensures PyDict.Get(InfoOf(fqcn), "fqcn") == Some(fqcn)
    ensures PyDict.Get(InfoOf(fqcn), "short_name") == Some(RestName(fqcn))
  {
    var info := InfoOf(fqcn);
    assert PyDict.Get(info, "fqcn") == PyDict.Get(info[1..], "fqcn");
    assert PyDict.Get(info, "short_name") == PyDict.Get(info[1..], "short_name");
    assert PyDict.Get(info[1..], "short_name") == PyDict.Get(info[2..], "short_name");
    assert PyDict.Get(info[2..], "short_name") == PyDict.Get(info[3..], "short_name");
  }

  /** Embedding twice is embedding once. */
  lemma EmbedIdempotent(t: ModuleTask, mappings: PyDict.Dict<string, seq<string>>)
    ensures EmbedModuleInfo(EmbedModuleInfo(t, mappings), mappings) == EmbedModuleInfo(t, mappings)
  {
  }

  /** After embedding, a task that had no module_info reports the resolved
    * name as its module name, and its module_info splits that name into
    * collection and rest. */
  lemma EmbedThenName(t: ModuleTask, mappings: PyDict.Dict<string, seq<string>>)
    requires t.moduleName != "" && |t.moduleInfo| == 0
    requires MappedFqcn(t.moduleName, mappings) != ""
    ensures var r := EmbedModuleInfo(t, mappings);
      var fqcn := MappedFqcn(t.moduleName, mappings);
      GetModuleName(r).0 == fqcn
      && PyDict.Get(r.moduleInfo, "collection") == Some(Collection(fqcn))
      && PyDict.Get(r.moduleInfo, "short_name") == Some(RestName(fqcn))
  {
    var fqcn := MappedFqcn(t.moduleName, mappings);
    var r := EmbedModuleInfo(t, mappings);
    assert r.moduleInfo == InfoOf(fqcn);
    InfoOfLookups(fqcn);
    NameFromInfo(r, fqcn);
  }

  /** A non-empty fqcn in module_info is the name reported. */
  lemma NameFromInfo(t: ModuleTask, fqcn: string)
    requires fqcn != "" && PyDict.Get(t.moduleInfo, "fqcn") == Some(fqcn)
    ensures GetModuleName(t).0 == fqcn
  {
  }

  /** A bare module name without a dotted mapping is left as it is. */
  lemma EmbedWithoutMapping(t: ModuleTask)
    requires '.' !in t.moduleName
    ensures EmbedModuleInfo(t, []) == t
  {
  }

  // ---------------------------------------------------------------------
  // _find_task_block / _find_play_block
  // ---------------------------------------------------------------------

  /** A block found in a YAML file: its text and its 1-based first and last
    * line numbers. */
  datatype TaskBlock = TaskBlock(text: string, first: int, last: int)

  /** Number of leading spaces. */
  function LeadingSpaces(line: string): (n: nat)
    ensures n <= |line|
    ensures forall i :: 0 <= i < n ==> line[i] == ' '
    ensures n < |line| ==> line[n] != ' '
  {
    if |line| > 0 && line[0] == ' ' then 1 + LeadingSpaces(line[1..]) else 0
  }

  /** line.replace(" ", "").startswith("-"): the first non-space character
    * is a dash. The indent of such a line, len(line.split("-")[0]), is its
    * number of leading spaces. */
  predicate IsItem(line: string)
  {
    LeadingSpaces(line) < |line| && line[LeadingSpaces(line)] == '-'
  }

  /** The play-block search passes over "tasks:", "pre_tasks:" and
    * "post_tasks:" lines (comments cut off, then stripped). */
  predicate IsTasksHeader(line: string)
  {
    Text.Strip(Text.Split(line, '#')[0]) in ["tasks:", "pre_tasks:", "post_tasks:"]
  }

  /** Where the upward search stops: a dash item in column 0, and for a play
    * not a tasks header. */
  predicate IsBlockTop(line: string, play: bool)
  {
    IsItem(line) && LeadingSpaces(line) == 0 && !(play && IsTasksHeader(line))
  }

  /** Where a block ends: the next dash item indented no deeper. */
  predicate EndsBlock(line: string, indent: nat)
  {
    IsItem(line) && LeadingSpaces(line) <= indent
  }

  /** The upward search from line i: the nearest block top at or above it. */
  function UpScan(lines: seq<string>, i: nat, play: bool): (r: Option<nat>)
    requires i < |lines|
    ensures r.Some? ==>
      r.value <= i && IsBlockTop(lines[r.value], play)
      && forall k :: r.value < k <= i ==> !IsBlockTop(lines[k], play)
    ensures r.None? ==> forall k :: 0 <= k <= i ==> !IsBlockTop(lines[k], play)
    decreases i
  {
    if IsBlockTop(lines[i], play) then Some(i)
    else if i == 0 then None
    else UpScan(lines, i - 1, play)
  }

  /** The downward search from line i: the first line that ends a block of
    * the given indent. */
  function EndScan(lines: seq<string>, indent: nat, i: nat): (r: Option<nat>)
    ensures r.Some? ==>
      i <= r.value < |lines| && EndsBlock(lines[r.value], indent)
      && forall k :: i <= k < r.value ==> !EndsBlock(lines[k], indent)
    ensures r.None? ==> forall k :: i <= k < |lines| ==> !EndsBlock(lines[k], indent)
    decreases |lines| - i
  {
    if i >= |lines| then None
    else if EndsBlock(lines[i], indent) then Some(i)
    else EndScan(lines, indent, i + 1)
  }

  /** First line and indent of the block around line `start`: the line
    * itself when it is a dash item, else the nearest block top above it
    * (column 0, because the searched-for indent is always 1). */
  function BlockStart(lines: seq<string>, start: nat, play: bool): (r: Option<(nat, nat)>)
    requires start < |lines|
    ensures r.Some? ==>
      r.value.0 <= start && IsItem(lines[r.value.0])
      && r.value.1 == LeadingSpaces(lines[r.value.0])
    ensures r.None? <==> !IsItem(lines[start]) && UpScan(lines, start, play).None?
  {
    if IsItem(lines[start]) then Some((start, LeadingSpaces(lines[start])))
    else
      match UpScan(lines, start, play)
      case None => None
      case Some(j) => Some((j, 0))
  }

  /** _find_task_block (play false) and _find_play_block (play true) as
    * written: a block that runs to the end of the file reports one line
    * past the last line, and a block on the last line is not found. */
  function FindBlockAsWritten(lines: seq<string>, start: int, play: bool): (r: Result<Option<TaskBlock>>)
    ensures r.Err? <==> |lines| > 0 && start >= |lines|
  {
    if |lines| == 0 || start < 0 then Ok(None)
    else if start >= |lines| then Err(IndexError)
    else
      match BlockStart(lines, start, play)
      case None => Ok(None)
      case Some((b, indent)) => Ok(BlockFromAsWritten(lines, b, indent))
  }

  /** The block starting at line b as the code as written cuts it. */
  function BlockFromAsWritten(lines: seq<string>, b: nat, indent: nat): Option<TaskBlock>
    requires b < |lines|
  {
    if b + 1 >= |lines| then None
    else
      var e := match EndScan(lines, indent, b + 1)
        case Some(k) => k - 1
        case None => |lines|;
      var stop := if e + 1 <= |lines| then e + 1 else |lines|;
      Some(TaskBlock(Text.Join(lines[b..stop], "\n"), b + 1, e + 1))
  }

  /** The block as written against the intended one, for one start line. */
  lemma BlockFromAsWrittenAgainst(lines: seq<string>, b: nat, indent: nat)
    requires b < |lines|
    ensures var B := BlockFrom(lines, b, indent);
      BlockFromAsWritten(lines, b, indent) ==
        if B.last == |lines| then
          if B.first == |lines| then None else Some(B.(last := |lines| + 1))
        else Some(B)
  {
  }

  /** The finders as intended: a block running to the end of the file ends
    * on the last line. The result holds the start line, begins with a dash
    * item, and stops just before the next item indented no deeper. */
  function FindBlock(lines: seq<string>, start: int, play: bool): (r: Result<Option<TaskBlock>>)
    ensures r.Err? <==> |lines| > 0 && start >= |lines|
    ensures |lines| == 0 || start < 0 ==> r == Ok(None)
    ensures r.Ok? && r.value.Some? ==> Encloses(lines, start, r.value.value)
    ensures r == Ok(None) && 0 <= start < |lines| ==> NoBlockAround(lines, start, play)
  {
    if |lines| == 0 || start < 0 then Ok(None)
    else if start >= |lines| then Err(IndexError)
    else
      match BlockStart(lines, start, play)
      case None => Ok(None)
      case Some((b, indent)) =>
        assert BlockEnd(lines, b, indent) >= start by {
          if b < start {
            TopNotBeforeEnd(lines, start, play, b);
          }
        }
        BlockFromEncloses(lines, start, b, indent);
        Ok(Some(BlockFrom(lines, b, indent)))
  }

  /** The block holds the start line, begins with a dash item, and stops
    * just before the next line indented no deeper than that item. */
  predicate Encloses(lines: seq<string>, start: int, B: TaskBlock)
  {
    1 <= B.first <= start + 1 <= B.last <= |lines|
    && IsItem(lines[B.first - 1])
    && B.text == Text.Join(lines[B.first - 1..B.last], "\n")
    && (forall k :: B.first <= k < B.last ==> !EndsBlock(lines[k], LeadingSpaces(lines[B.first - 1])))
    && (B.last == |lines| || EndsBlock(lines[B.last], LeadingSpaces(lines[B.first - 1])))
  }

  /** No block surrounds the start line: it is no dash item and no line up
    * to it is a block top. */
  predicate NoBlockAround(lines: seq<string>, start: nat, play: bool)
    requires start < |lines|
  {
    !IsItem(lines[start]) && forall k :: 0 <= k <= start ==> !IsBlockTop(lines[k], play)
  }

  lemma BlockFromEncloses(lines: seq<string>, start: nat, b: nat, indent: nat)
    requires b <= start < |lines| && IsItem(lines[b]) && indent == LeadingSpaces(lines[b])
    requires BlockEnd(lines, b, indent) >= start
    ensures Encloses(lines, start, BlockFrom(lines, b, indent))
  {
  }

  /** The index of the last line of a block starting at line b with the
    * given indentation: the line before the first one below b that ends
    * it, or the last line of the file. */
  function BlockEnd(lines: seq<string>, b: nat, indent: nat): (e: nat)
    requires b < |lines|
    ensures b <= e < |lines|
    ensures forall k :: b < k <= e ==> !EndsBlock(lines[k], indent)
    ensures e + 1 == |lines| || EndsBlock(lines[e + 1], indent)
  {
    match EndScan(lines, indent, b + 1)
    case Some(k) => k - 1
    case None => |lines| - 1
  }

  /** The block starting at line b with the given indentation, with
    * 1-based first and last line numbers. */
  function BlockFrom(lines: seq<string>, b: nat, indent: nat): (B: TaskBlock)
    requires b < |lines|
    ensures B.first == b + 1 <= B.last <= |lines|
    ensures B.text == Text.Join(lines[b..B.last], "\n")
    ensures forall k :: B.first <= k < B.last ==> !EndsBlock(lines[k], indent)
    ensures B.last == |lines| || EndsBlock(lines[B.last], indent)
  {
    var e := BlockEnd(lines, b, indent);
    TaskBlock(Text.Join(lines[b..e + 1], "\n"), b + 1, e + 1)
  }

  /** When the block starts at a block top above a non-item start line, no
    * column-0 item lies between them, so the block reaches the start line. */
  lemma TopNotBeforeEnd(lines: seq<string>, start: nat, play: bool, b: nat)
    requires start < |lines| && !IsItem(lines[start])
    requires UpScan(lines, start, play) == Some(b) && b < start
    ensures forall k :: b < k <= start ==> !EndsBlock(lines[k], 0)
  {
    forall k | b < k <= start
      ensures !EndsBlock(lines[k], 0)
    {
      assert !IsBlockTop(lines[k], play);
      if play && IsItem(lines[k]) {
        ItemIsNotHeader(lines[k]);
      }
    }
  }

  /** A dash item never reads as a tasks header: its stripped text before any
    * '#' starts with the dash. */
  lemma ItemIsNotHeader(line: string)
    requires IsItem(line)
    ensures !IsTasksHeader(line)
  {
    var n := LeadingSpaces(line);
    var part := Text.Split(line, '#')[0];
    ItemPart(line);
    TrimLeftToDash(part, n);
    var left := Text.TrimLeft(part);
    TrimRightKeepsHead(left);
    DashNotHeader(Text.TrimRight(left));
  }

  /** The text before the first '#' of an item line still holds the item's
    * indentation and dash. */
  lemma ItemPart(line: string)
    requires IsItem(line)
    ensures var n := LeadingSpaces(line); var part := Text.Split(line, '#')[0];
      n < |part| && part[n] == '-' && forall i :: 0 <= i < n ==> part[i] == ' '
  {
    var n := LeadingSpaces(line);
    var part := Text.Split(line, '#')[0];
    SplitHead(line, '#');
    assert forall i :: 0 <= i <= n ==> line[i] != '#';
    assert |part| > n;
    assert forall i :: 0 <= i < |part| ==> part[i] == line[i];
  }

  lemma {:induction false} TrimLeftToDash(s: string, n: nat)
    requires n < |s| && s[n] == '-' && forall i :: 0 <= i < n ==> s[i] == ' '
    ensures |Text.TrimLeft(s)| > 0 && Text.TrimLeft(s)[0] == '-'
    decreases n
  {
    if n == 0 {
      assert !Text.IsSpace(s[0]);
    } else {
      assert Text.IsSpace(s[0]);
      assert forall i :: 0 <= i < n - 1 ==> s[1..][i] == s[i + 1];
      TrimLeftToDash(s[1..], n - 1);
    }
  }

  lemma {:induction false} TrimRightKeepsHead(s: string)
    requires |s| > 0 && !Text.IsSpace(s[0])
    ensures |Text.TrimRight(s)| > 0 && Text.TrimRight(s)[0] == s[0]
    decreases |s|
  {
    if |s| > 1 && Text.IsSpace(s[|s| - 1]) {
      TrimRightKeepsHead(s[..|s| - 1]);
    }
  }

  lemma DashNotHeader(s: string)
    requires |s| > 0 && s[0] == '-'
    ensures s !in ["tasks:", "pre_tasks:", "post_tasks:"]
  {
    assert "tasks:"[0] == 't' && "pre_tasks:"[0] == 'p' && "post_tasks:"[0] == 'p';
  }

  /** The first part of a split is the text up to the first separator. */
  lemma {:induction false} SplitHead(s: string, c: char)
    ensures var p := Text.Split(s, c)[0];
      |p| <= |s| && s[..|p|] == p && (|p| < |s| ==> s[|p|] == c)
    decreases |s|
  {
    if |s| > 0 && s[0] != c {
      SplitHead(s[1..], c);
    }
  }

  /** The two finders differ only in the upward search, and a tasks header is
    * never a dash item, so they find the same blocks. */
  lemma PlayFinderIsTaskFinder(lines: seq<string>, start: int)
    ensures FindBlock(lines, start, true) == FindBlock(lines, start, false)
    ensures FindBlockAsWritten(lines, start, true) == FindBlockAsWritten(lines, start, false)
  {
    if 0 <= start < |lines| {
      UpScanSame(lines, start);
      assert BlockStart(lines, start, true) == BlockStart(lines, start, false);
      FindBlockByStart(lines, start, true, false);
      FindBlockAsWrittenByStart(lines, start, true, false);
    }
  }

  /** The finder depends on the upward search only through where the block
    * starts. */
  lemma FindBlockByStart(lines: seq<string>, start: int, play1: bool, play2: bool)
    requires 0 <= start < |lines|
    requires BlockStart(lines, start, play1) == BlockStart(lines, start, play2)
    ensures FindBlock(lines, start, play1) == FindBlock(lines, start, play2)
  {
  }

  lemma FindBlockAsWrittenByStart(lines: seq<string>, start: int, play1: bool, play2: bool)
    requires 0 <= start < |lines|
    requires BlockStart(lines, start, play1) == BlockStart(lines, start, play2)
    ensures FindBlockAsWritten(lines, start, play1) == FindBlockAsWritten(lines, start, play2)
  {
  }

  lemma {:induction false} UpScanSame(lines: seq<string>, i: nat)
    requires i < |lines|
    ensures UpScan(lines, i, true) == UpScan(lines, i, false)
    decreases i
  {
    BlockTopSame(lines[i]);
    if !IsBlockTop(lines[i], false) && i > 0 {
      UpScanSame(lines, i - 1);
      UpScanSkip(lines, i, true);
      UpScanSkip(lines, i, false);
    } else {
      UpScanStep(lines, i, true);
      UpScanStep(lines, i, false);
    }
  }

  /** The upward search passes over a line that is not a block top. */
  lemma UpScanSkip(lines: seq<string>, i: nat, play: bool)
    requires 0 < i < |lines| && !IsBlockTop(lines[i], play)
    ensures UpScan(lines, i, play) == UpScan(lines, i - 1, play)
  {
  }

  /** One step of the upward search. */
  lemma UpScanStep(lines: seq<string>, i: nat, play: bool)
    requires i < |lines|
    ensures UpScan(lines, i, play) ==
      if IsBlockTop(lines[i], play) then Some(i) else if i == 0 then None else UpScan(lines, i - 1, play)
  {
  }

  /** A line is a block top for a play exactly when it is one for a task. */
  lemma BlockTopSame(line: string)
    ensures IsBlockTop(line, true) == IsBlockTop(line, false)
  {
    if IsItem(line) {
      ItemIsNotHeader(line);
    }
  }

  /** The code as written against the intended finder: the same result
    * except for blocks that run to the end of the file, whose last line is
    * reported one too far, or which vanish when they are the last line. */
  lemma AsWrittenAgainstIntended(lines: seq<string>, start: int, play: bool)
    ensures var w := FindBlockAsWritten(lines, start, play);
      var c := FindBlock(lines, start, play);
      if c.Ok? && c.value.Some? && c.value.value.last == |lines| then
        if c.value.value.first == |lines| then w == Ok(None)
        else w == Ok(Some(c.value.value.(last := |lines| + 1)))
      else w == c
  {
    if 0 <= start < |lines| {
      match BlockStart(lines, start, play)
      case None =>
      case Some((b, indent)) =>
        BlockFromAsWrittenAgainst(lines, b, indent);
    }
  }

  /** A two-line file whose first item runs to the end. */
  lemma EndOfFileOffByOne()
    ensures FindBlockAsWritten(["- a", "  b"], 0, false) == Ok(Some(TaskBlock("- a\n  b", 1, 3)))
    ensures FindBlock(["- a", "  b"], 0, false) == Ok(Some(TaskBlock("- a\n  b", 1, 2)))
  {
    var lines := ["- a", "  b"];
    assert LeadingSpaces(lines[0]) == 0 && IsItem(lines[0]);
    assert LeadingSpaces(lines[1]) == 2 && !EndsBlock(lines[1], 0);
    assert EndScan(lines, 0, 1) == None;
    assert BlockStart(lines, 0, false) == Some((0, 0));
    assert lines[0..2] == lines;
    assert Text.Join(lines, "\n") == "- a" + "\n" + "  b" == "- a\n  b";
  }

  /** A one-line block at the end of the file. */
  lemma LastLineBlockLost()
    ensures FindBlockAsWritten(["- a"], 0, false) == Ok(None)
    ensures FindBlock(["- a"], 0, false) == Ok(Some(TaskBlock("- a", 1, 1)))
  {
    var lines := ["- a"];
    assert LeadingSpaces(lines[0]) == 0 && IsItem(lines[0]);
    assert lines[0..1] == lines;
  }
}
