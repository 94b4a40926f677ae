// config.py: the line grammar of ansible-policy.cfg (policy patterns and
// policy sources), the per-file verdict of one pattern, the installation
// step of a source, and the grouping of the file into [policy], [source]
// and [plugin] sections.
//
// The three line regexes are read as scanners. Each scanner follows the
// greedy-then-backtrack order of Python's `re.match` for that one pattern.

module Config {
  import opened Wrappers
  import Text
  import PyDict
  import Utils
  import Models
  import Policybook
  import Engines
  import Seqs

  // ---------------------------------------------------------------------
  // Scanners shared by the line grammars
  // ---------------------------------------------------------------------

  /** `[^ #]*`: the longest prefix without ' ' or '#'. */
  function NameRun(s: string): (r: string)
    ensures |r| <= |s| && r == s[..|r|]
    ensures ' ' !in r && '#' !in r
    ensures |r| < |s| ==> s[|r|] == ' ' || s[|r|] == '#'
  {
    if |s| > 0 && s[0] != ' ' && s[0] != '#' then [s[0]] + NameRun(s[1..]) else ""
  }

  /** `[^ ]+` taken greedily: the longest prefix without a space. */
  function NonSpaceRun(s: string): (r: string)
    ensures |r| <= |s| && r == s[..|r|]
    ensures ' ' !in r
    ensures |r| < |s| ==> s[|r|] == ' '
  {
    if |s| > 0 && s[0] != ' ' then [s[0]] + NonSpaceRun(s[1..]) else ""
  }

  /** `[ ]*` taken greedily: the text after the leading spaces. */
  function DropSpaces(s: string): (r: string)
    ensures |r| <= |s| && r == s[|s| - |r|..]
    ensures |r| > 0 ==> r[0] != ' '
  {
    s[Utils.LeadingSpaces(s)..]
  }

  /** `<word>[ ]?=[ ]?` at the start of s: the length of that head. */
  function ClauseHead(s: string, word: string): (r: Option<nat>)
    ensures r.Some? ==> |word| < r.value <= |s| && Text.StartsWith(s, word)
  {
    if !Text.StartsWith(s, word) then None
    else
      var i := |word| + (if |word| < |s| && s[|word|] == ' ' then 1 else 0);
      if i < |s| && s[i] == '=' then
        Some(i + 1 + (if i + 1 < |s| && s[i + 1] == ' ' then 1 else 0))
      else None
  }

  // ---------------------------------------------------------------------
  // [policy] lines: `<name> [tag=<a,b>] ... enabled|disabled ...`
  // ---------------------------------------------------------------------

  /** A policy pattern. `tags` is None when the line has no tag clause. */
  datatype PolicyPattern = PolicyPattern(name: string, tags: Option<seq<string>>, enabled: bool)

  /** "enabled" (true) or "disabled" (false) starting at position i. */
  function KeywordAt(s: string, i: nat): Option<bool>
  {
    if Text.OccursAt(s, "enabled", i) then Some(true)
    else if Text.OccursAt(s, "disabled", i) then Some(false)
    else None
  }

  /** Where `.*(enabled|disabled)` stops: the rightmost keyword with no
    * newline before it, since the dot does not cross a newline
    * (LastKeywordIsRightmost). */
  function LastKeyword(s: string): (r: Option<(nat, bool)>)
    ensures r.Some? ==> r.value.0 <= |s| && KeywordAt(s, r.value.0) == Some(r.value.1)
  {
    KeywordFrom(s, |s|)
  }

  /** The rightmost keyword at or before position i. */
  function KeywordFrom(s: string, i: nat): (r: Option<(nat, bool)>)
    requires i <= |s|
    ensures r.Some? ==> r.value.0 <= i && KeywordAt(s, r.value.0) == Some(r.value.1)
    decreases i
  {
    if '\n' !in s[..i] && KeywordAt(s, i).Some? then Some((i, KeywordAt(s, i).value))
    else if i == 0 then None
    else KeywordFrom(s, i - 1)
  }

  /** The keyword found has no newline before it and no keyword after it
    * that no newline precedes; none is found only when there is no such
    * keyword at all. */
  lemma LastKeywordIsRightmost(s: string)
    ensures var r := LastKeyword(s);
      (r.Some? ==>
         '\n' !in s[..r.value.0]
         && forall j :: r.value.0 < j <= |s| && '\n' !in s[..j] ==> KeywordAt(s, j).None?)
      && (r.None? ==> forall j :: 0 <= j <= |s| && '\n' !in s[..j] ==> KeywordAt(s, j).None?)
  {
    KeywordFromRightmost(s, |s|);
  }

  lemma {:induction false} KeywordFromRightmost(s: string, i: nat)
    requires i <= |s|
    ensures var r := KeywordFrom(s, i);
      (r.Some? ==>
         '\n' !in s[..r.value.0]
         && forall j :: r.value.0 < j <= i && '\n' !in s[..j] ==> KeywordAt(s, j).None?)
      && (r.None? ==> forall j :: 0 <= j <= i && '\n' !in s[..j] ==> KeywordAt(s, j).None?)
    decreases i
  {
    if !('\n' !in s[..i] && KeywordAt(s, i).Some?) && i > 0 {
      KeywordFromRightmost(s, i - 1);
    }
  }

  /** Backtracking of the tag value `[^ ]+`: its longest length, at most k,
    * after which a keyword can still be found; with that keyword. */
  function TagCut(s: string, head: nat, k: nat): (r: Option<(nat, bool)>)
    requires head + k <= |s|
    ensures r.Some? ==>
      1 <= r.value.0 <= k && LastKeyword(s[head + r.value.0..]).Some?
      && LastKeyword(s[head + r.value.0..]).value.1 == r.value.1
    decreases k
  {
    if k == 0 then None
    else
      match LastKeyword(s[head + k..])
      case Some(p) => Some((k, p.1))
      case None => TagCut(s, head, k - 1)
  }

  /** `(tag[ ]?=[ ]?[^ ]+)?.*(enabled|disabled).*` at the start of s: the
    * text of the tag clause when it is taken, and whether the keyword is
    * "enabled". The clause is tried first, then left out. */
  function PolicyBody(s: string): (r: Option<(Option<string>, bool)>)
    ensures r.Some? && r.value.0.Some? ==> Text.StartsWith(s, r.value.0.value)
  {
    match TaggedBody(s)
    case Some(t) => Some((Some(s[..t.0]), t.1))
    case None =>
      match LastKeyword(s)
      case None => None
      case Some(p) => Some((None, p.1))
  }

  /** The tag clause when it is taken: where it ends, and the keyword that
    * follows it. */
  function TaggedBody(s: string): (r: Option<(nat, bool)>)
    ensures r.Some? ==>
      r.value.0 <= |s| && LastKeyword(s[r.value.0..]).Some?
      && LastKeyword(s[r.value.0..]).value.1 == r.value.1
  {
    match ClauseHead(s, "tag")
    case None => None
    case Some(h) =>
      match TagCut(s, h, |NonSpaceRun(s[h..])|)
      case None => None
      case Some(c) => Some((h + c.0, c.1))
  }

  /** The keyword PolicyBody reports occurs in the text. */
  lemma PolicyBodyKeyword(s: string) returns (i: nat)
    requires PolicyBody(s).Some?
    ensures i <= |s| && KeywordAt(s, i) == Some(PolicyBody(s).value.1)
  {
    if TaggedBody(s).Some? {
      i := TaggedBodyKeyword(s);
    } else {
      i := LastKeyword(s).value.0;
    }
  }

  /** The keyword after a tag clause, found in the whole text. */
  lemma TaggedBodyKeyword(s: string) returns (i: nat)
    requires TaggedBody(s).Some?
    ensures PolicyBody(s).Some? && PolicyBody(s).value.1 == TaggedBody(s).value.1
    ensures i <= |s| && KeywordAt(s, i) == Some(TaggedBody(s).value.1)
  {
    i := KeywordInSuffix(s, TaggedBody(s).value.0);
  }

  /** The last keyword of a suffix is a keyword of the whole text. */
  lemma KeywordInSuffix(s: string, m: nat) returns (i: nat)
    requires m <= |s| && LastKeyword(s[m..]).Some?
    ensures i <= |s| && KeywordAt(s, i) == Some(LastKeyword(s[m..]).value.1)
  {
    var p := LastKeyword(s[m..]).value.0;
    KeywordShift(s, m, p);
    i := m + p;
  }

  /** A keyword found in a suffix is found at the shifted position. */
  lemma KeywordShift(s: string, m: nat, p: nat)
    requires m <= |s|
    ensures KeywordAt(s[m..], p) == KeywordAt(s, m + p)
  {
    if p + 7 <= |s[m..]| {
      assert s[m..][p..p + 7] == s[m + p..m + p + 7];
    }
    if p + 8 <= |s[m..]| {
      assert s[m..][p..p + 8] == s[m + p..m + p + 8];
    }
  }

  /** The tag list of a clause: spaces removed, the text after the last '=',
    * split on ','. */
  function TagsOf(raw: string): (ts: seq<string>)
    ensures |ts| >= 1
    ensures forall i :: 0 <= i < |ts| ==> ' ' !in ts[i] && ',' !in ts[i] && '=' !in ts[i]
  {
    var spaceless := Text.ReplaceChar(raw, ' ', "");
    var value := Text.LastPart(spaceless, '=');
    SplitKeepsOut(spaceless, '=', ' ');
    SplitKeepsOut(value, ',', ' ');
    SplitKeepsOut(value, ',', '=');
    Text.Split(value, ',')
  }

  /** A character absent from a text is absent from every part of its split. */
  lemma {:induction false} SplitKeepsOut(s: string, c: char, x: char)
    requires x !in s
    ensures forall i :: 0 <= i < |Text.Split(s, c)| ==> x !in Text.Split(s, c)[i]
    decreases |s|
  {
    if |s| > 0 {
      SplitKeepsOut(s[1..], c, x);
    }
  }

  /** PolicyPattern.load(line); None when the line does not match. The name
    * is taken greedily; when nothing follows it as the grammar asks and the
    * line starts with spaces, the regex gives back a space and reads an
    * empty name with the whole rest as the body. */
  function LoadPolicyPattern(line: string): (r: Option<PolicyPattern>)
    ensures r.Some? ==> r.value.name != "default" && ' ' !in r.value.name && '#' !in r.value.name
    ensures r.Some? && r.value.tags.Some? ==>
      |r.value.tags.value| >= 1
      && forall i :: 0 <= i < |r.value.tags.value| ==> ' ' !in r.value.tags.value[i] && ',' !in r.value.tags.value[i]
  {
    match PatternParts(line)
    case None => None
    case Some(q) =>
      Some(PolicyPattern(
        if q.0 == "default" then "*" else q.0,
        if q.1.Some? then Some(TagsOf(q.1.value)) else None,
        q.2))
  }

  /** The three groups of the policy line regex, and where the body starts. */
  function PatternParts(line: string): (r: Option<(string, Option<string>, bool, nat)>)
    ensures r.Some? ==>
      ' ' !in r.value.0 && '#' !in r.value.0 && r.value.3 <= |line|
      && PolicyBody(line[r.value.3..]) == Some((r.value.1, r.value.2))
  {
    match LineParts(line, PolicyBody)
    case None => None
    case Some(q) => Some((q.0, q.1.0, q.1.1, q.2))
  }

  /** The shape of a policy line around its body, `body` reading the
    * tags-and-keyword part: a name and at least one space before the body,
    * or only the indentation. */
  function LineParts<B>(line: string, body: string -> Option<B>): (r: Option<(string, B, nat)>)
    ensures r.Some? ==>
      ' ' !in r.value.0 && '#' !in r.value.0 && r.value.2 <= |line|
      && body(line[r.value.2..]) == Some(r.value.1)
  {
    var (n, name, spaced, start) := NameSplit(line);
    if spaced && body(line[start..]).Some? then Some((name, body(line[start..]).value, start))
    else IndentedBody(line, n, body)
  }

  /** The start of a policy line: its indentation, the name after it,
    * whether a space follows the name, and where the text after those
    * spaces starts. */
  function NameSplit(line: string): (r: (nat, string, bool, nat))
    ensures r.0 <= |line| && r.3 <= |line|
    ensures ' ' !in r.1 && '#' !in r.1
  {
    var n := Utils.LeadingSpaces(line);
    var rest := line[n..];
    var name := NameRun(rest);
    var after := rest[|name|..];
    (n, name, |after| > 0 && after[0] == ' ', |line| - |DropSpaces(after)|)
  }

  /** The second alternative: only the indentation before the body. */
  function IndentedBody<B>(line: string, n: nat, body: string -> Option<B>): (r: Option<(string, B, nat)>)
    requires n <= |line|
    ensures r.Some? ==> r.value.0 == "" && r.value.2 == n && body(line[n..]) == Some(r.value.1)
  {
    if n > 0 && body(line[n..]).Some? then Some(("", body(line[n..]).value, n))
    else None
  }

  /** Every line that loads names one of the two keywords, so the keyword
    * filter of from_lines drops nothing that would load. */
  lemma LoadedLineHasKeyword(line: string)
    requires LoadPolicyPattern(line).Some?
    ensures Text.Contains(line, "enabled") || Text.Contains(line, "disabled")
  {
    var q := PatternParts(line).value;
    BodyHasKeyword(line, q.3);
  }

  /** A policy body found inside a line puts a keyword in the line. */
  lemma BodyHasKeyword(line: string, m: nat)
    requires m <= |line| && PolicyBody(line[m..]).Some?
    ensures Text.Contains(line, "enabled") || Text.Contains(line, "disabled")
  {
    var body := line[m..];
    var i := PolicyBodyKeyword(body);
    KeywordInLine(line, m, i);
  }

  /** A keyword inside a suffix of a line is a keyword of the line. */
  lemma KeywordInLine(line: string, m: nat, i: nat)
    requires m <= |line| && KeywordAt(line[m..], i).Some?
    ensures Text.Contains(line, "enabled") || Text.Contains(line, "disabled")
  {
    KeywordShift(line, m, i);
    KeywordContained(line, m + i);
  }

  lemma KeywordContained(s: string, p: nat)
    requires KeywordAt(s, p).Some?
    ensures Text.Contains(s, "enabled") || Text.Contains(s, "disabled")
  {
  }

  /** A pattern line as a user writes it. */
  function KeywordText(enabled: bool): string
  {
    if enabled then "enabled" else "disabled"
  }

  function RenderPattern(pp: PolicyPattern): string
  {
    pp.name + " "
    + (if pp.tags.Some? then "tag=" + Text.Join(pp.tags.value, ",") + " " else "")
    + KeywordText(pp.enabled)
  }

  /** The patterns a line can state: a name with no space or '#' other than
    * "default", and tags with no space, ',' or '='. */
  predicate WellFormedPattern(pp: PolicyPattern)
  {
    |pp.name| > 0 && ' ' !in pp.name && '#' !in pp.name && pp.name != "default"
    && (pp.tags.Some? ==>
          |pp.tags.value| >= 1 && Text.Join(pp.tags.value, ",") != ""
          && forall i :: 0 <= i < |pp.tags.value| ==>
               ' ' !in pp.tags.value[i] && ',' !in pp.tags.value[i] && '=' !in pp.tags.value[i])
  }

  /** A keyword at the end of a newline-free text is the last one. */
  lemma KeywordAtEnd(pre: string, enabled: bool)
    requires '\n' !in pre
    ensures LastKeyword(pre + KeywordText(enabled)) == Some((|pre|, enabled))
  {
    var s := pre + KeywordText(enabled);
    KeywordAtJoin(pre, enabled);
    assert s[..|pre|] == pre;
    LastKeywordIsRightmost(s);
    forall j | |pre| < j <= |s|
      ensures KeywordAt(s, j).None?
    {
      NoKeywordAfter(pre, enabled, j);
    }
  }

  /** The keyword written after a text is found where it was written. */
  lemma KeywordAtJoin(pre: string, enabled: bool)
    ensures KeywordAt(pre + KeywordText(enabled), |pre|) == Some(enabled)
  {
    var kw := KeywordText(enabled);
    var s := pre + kw;
    assert s[|pre|..|pre| + |kw|] == kw;
    if !enabled {
      assert s[|pre|] == 'd';
    }
  }

  /** No keyword starts inside the one written at the end. */
  lemma NoKeywordAfter(pre: string, enabled: bool, j: nat)
    requires |pre| < j <= |pre + KeywordText(enabled)|
    ensures KeywordAt(pre + KeywordText(enabled), j).None?
  {
    var s := pre + KeywordText(enabled);
    if !enabled && j == |pre| + 1 {
      assert s[j] == 'i';
    }
  }

  /** Loading the written form of a well-formed pattern gives it back. */
  lemma LoadRenderPattern(pp: PolicyPattern)
    requires WellFormedPattern(pp)
    ensures LoadPolicyPattern(RenderPattern(pp)) == Some(pp)
  {
    var kw := KeywordText(pp.enabled);
    if pp.tags.Some? {
      var j := Text.Join(pp.tags.value, ",");
      JoinChars(pp.tags.value, ",");
      var body := "tag=" + j + " " + kw;
      assert RenderPattern(pp) == pp.name + " " + body;
      TaggedBodyOf(j, pp.enabled);
      RenderedParts(pp.name, body);
      TagsRoundTrip(pp.tags.value);
    } else {
      assert RenderPattern(pp) == pp.name + " " + kw;
      UntaggedBodyOf(pp.enabled);
      RenderedParts(pp.name, kw);
    }
  }

  /** Helper for LoadRenderPattern: a name, one space and a body. */
  lemma RenderedParts(name: string, body: string)
    requires |name| > 0 && ' ' !in name && '#' !in name
    requires |body| > 0 && body[0] != ' ' && PolicyBody(body).Some?
    ensures PatternParts(name + " " + body)
      == Some((name, PolicyBody(body).value.0, PolicyBody(body).value.1, |name| + 1))
  {
    var line := name + " " + body;
    assert Utils.LeadingSpaces(line) == 0 by {
      assert line[0] == name[0];
    }
    assert line[0..] == line;
    assert line == name + (" " + body);
    NameRunOf(name, " " + body);
    assert line[|name|..] == " " + body;
    assert Utils.LeadingSpaces(" " + body) == 1 by {
      assert (" " + body)[1..] == body;
    }
    assert DropSpaces(" " + body) == body;
    assert line[|name| + 1..] == body;
  }

  /** Helper for LoadRenderPattern: a body with a tag clause. */
  lemma TaggedBodyOf(j: string, enabled: bool)
    requires |j| > 0 && ' ' !in j
    ensures PolicyBody("tag=" + j + " " + KeywordText(enabled)) == Some((Some("tag=" + j), enabled))
  {
    var kw := KeywordText(enabled);
    var rest := " " + kw;
    var body := "tag=" + j + " " + kw;
    assert body == "tag=" + j + rest;
    TagClauseSlices(j, rest);
    NonSpaceRunOf(j, rest);
    KeywordAtEnd(" ", enabled);
    TagCutAtEnd(body, 4, |j|);
    assert TaggedBody(body) == Some((4 + |j|, enabled));
  }

  /** The pieces of a tag clause followed by the rest of a line. */
  lemma TagClauseSlices(j: string, rest: string)
    requires |j| > 0 && j[0] != ' '
    ensures ClauseHead("tag=" + j + rest, "tag") == Some(4)
    ensures ("tag=" + j + rest)[4..] == j + rest
    ensures ("tag=" + j + rest)[..4 + |j|] == "tag=" + j
    ensures ("tag=" + j + rest)[4 + |j|..] == rest
  {
    var body := "tag=" + j + rest;
    assert body[..3] == "tag" && body[3] == '=' && body[4] == j[0];
  }

  /** The tag value is cut at its full length when a keyword follows it. */
  lemma TagCutAtEnd(s: string, head: nat, k: nat)
    requires 0 < k && head + k <= |s| && LastKeyword(s[head + k..]).Some?
    ensures TagCut(s, head, k) == Some((k, LastKeyword(s[head + k..]).value.1))
  {
  }

  /** Helper for LoadRenderPattern: a body that is just the keyword. */
  lemma UntaggedBodyOf(enabled: bool)
    ensures PolicyBody(KeywordText(enabled)) == Some((None, enabled))
  {
    var kw := KeywordText(enabled);
    assert ClauseHead(kw, "tag") == None by {
      assert kw[0] != 't';
    }
    KeywordAtEnd("", enabled);
    assert "" + kw == kw;
  }

  lemma {:induction false} NameRunOf(a: string, b: string)
    requires ' ' !in a && '#' !in a
    requires |b| > 0 && b[0] == ' '
    ensures NameRun(a + b) == a
    decreases |a|
  {
    if |a| == 0 {
      assert a + b == b;
    } else {
      assert (a + b)[0] == a[0] && (a + b)[1..] == a[1..] + b;
      NameRunOf(a[1..], b);
      assert a == [a[0]] + a[1..];
    }
  }

  lemma {:induction false} NonSpaceRunOf(a: string, b: string)
    requires ' ' !in a
    requires |b| == 0 || b[0] == ' '
    ensures NonSpaceRun(a + b) == a
    decreases |a|
  {
    if |a| == 0 {
      assert a + b == b;
    } else {
      assert (a + b)[0] == a[0] && (a + b)[1..] == a[1..] + b;
      NonSpaceRunOf(a[1..], b);
      assert a == [a[0]] + a[1..];
    }
  }

  /** Characters of a join come from the parts or the separator. */
  lemma {:induction false} JoinChars(xs: seq<string>, sep: string)
    ensures forall x :: x in Text.Join(xs, sep) ==> x in sep || exists i :: 0 <= i < |xs| && x in xs[i]
    decreases |xs|
  {
    if |xs| > 1 {
      JoinChars(xs[1..], sep);
      forall x | x in Text.Join(xs, sep)
        ensures x in sep || exists i :: 0 <= i < |xs| && x in xs[i]
      {
        if x !in xs[0] && x !in sep {
          assert x in Text.Join(xs[1..], sep);
          var i :| 0 <= i < |xs[1..]| && x in xs[1..][i];
          assert x in xs[i + 1];
        }
      }
    } else if |xs| == 1 {
      assert Text.Join(xs, sep) == xs[0];
    }
  }

  /** The tag clause of a written pattern reads back as its tags. */
  lemma TagsRoundTrip(ts: seq<string>)
    requires |ts| >= 1
    requires forall i :: 0 <= i < |ts| ==> ' ' !in ts[i] && ',' !in ts[i] && '=' !in ts[i]
    ensures TagsOf("tag=" + Text.Join(ts, ",")) == ts
  {
    var j := Text.Join(ts, ",");
    JoinChars(ts, ",");
    assert "tag=" + j == "tag" + "=" + j;
    ClauseValue("tag", j);
    Text.SplitJoin(ts, ',');
  }

  /** The value of a space-free `<word>=<value>` clause is its value. */
  lemma ClauseValue(word: string, j: string)
    requires ' ' !in word && '=' !in word && ' ' !in j && '=' !in j
    ensures Text.LastPart(Text.ReplaceChar(word + "=" + j, ' ', ""), '=') == j
  {
    assert ' ' !in word + "=" + j;
    Text.SplitJoin([word, j], '=');
    assert Text.Join([word, j], "=") == word + "=" + j;
  }

  /** PolicyConfig.from_lines: lines without either keyword are skipped
    * before parsing, lines that do not parse are dropped. */
  function PolicyFromLines(lines: seq<string>): (ps: seq<PolicyPattern>)
    ensures |ps| <= |lines|
  {
    if |lines| == 0 then []
    else
      var line := lines[0];
      var head :=
        if !Text.Contains(line, "enabled") && !Text.Contains(line, "disabled") then []
        else match LoadPolicyPattern(line) case None => [] case Some(p) => [p];
      head + PolicyFromLines(lines[1..])
  }

  /** The patterns of every line that parses, in order. */
  function LoadedPatterns(lines: seq<string>): seq<PolicyPattern>
  {
    if |lines| == 0 then []
    else
      (match LoadPolicyPattern(lines[0]) case None => [] case Some(p) => [p])
      + LoadedPatterns(lines[1..])
  }

  /** The keyword filter in from_lines never drops a line that would parse:
    * the result is every parsed line, in order. */
  lemma {:induction false} FromLinesKeepsEveryPattern(lines: seq<string>)
    ensures PolicyFromLines(lines) == LoadedPatterns(lines)
  {
    if |lines| > 0 {
      FromLinesKeepsEveryPattern(lines[1..]);
      if LoadPolicyPattern(lines[0]).Some? {
        LoadedLineHasKeyword(lines[0]);
      }
    }
  }

  /** PolicyPattern.check_enabled: the pattern's verdict for one policy
    * file. The source name is the first segment of the file's path relative
    * to the policy root; `relpath` is os.path.relpath and `fileTags` reads
    * the tags declared in the policy file. */
  function CheckEnabled(
    pp: PolicyPattern, filepath: string, root: string,
    relpath: (string, string) -> string, fileTags: string -> seq<string>): (r: Option<bool>)
    ensures r.Some? ==> r.value == pp.enabled
    ensures r.Some? <==>
      Utils.MatchStr(pp.name, SourceName(relpath(filepath, root)))
      && (pp.tags.Some? && |pp.tags.value| > 0 ==>
            exists t :: t in pp.tags.value && t in fileTags(filepath))
  {
    if !Utils.MatchStr(pp.name, SourceName(relpath(filepath, root))) then None
    else if pp.tags.Some? && |pp.tags.value| > 0 then
      var tags := fileTags(filepath);
      if |tags| == 0 then None
      else if !(exists t :: t in pp.tags.value && t in tags) then None
      else Some(pp.enabled)
    else Some(pp.enabled)
  }

  /** relative.split("/")[0] */
  function SourceName(relative: string): (r: string)
    ensures '/' !in r && Text.StartsWith(relative, r)
  {
    var parts := Text.Split(relative, '/');
    Utils.SplitHead(relative, '/');
    parts[0]
  }

  // ---------------------------------------------------------------------
  // [source] lines: `<name> = <source> [type=<kind>] ...`
  // ---------------------------------------------------------------------

  /** A policy source; `kind` is the source's `type` field. */
  datatype Source = Source(name: string, source: string, kind: string)

  /** `[ ]*=[ ]*([^ ]+)` at the start of s: the source text and what follows
    * it. */
  function AfterName(s: string): (r: Option<(string, string)>)
    ensures r.Some? ==> |r.value.0| > 0 && ' ' !in r.value.0
    ensures r.Some? ==> |r.value.1| > 0 ==> r.value.1[0] == ' '
  {
    var s1 := DropSpaces(s);
    if |s1| > 0 && s1[0] == '=' then
      var s2 := DropSpaces(s1[1..]);
      var src := NonSpaceRun(s2);
      if |src| > 0 then Some((src, s2[|src|..]))
      else None
    else None
  }

  /** The source and the text after it are the end of the matched text. */
  lemma AfterNameSuffix(s: string)
    requires AfterName(s).Some?
    ensures Text.EndsWith(s, AfterName(s).value.0 + AfterName(s).value.1)
  {
    var s1 := DropSpaces(s);
    var s2 := DropSpaces(s1[1..]);
    var src := NonSpaceRun(s2);
    SuffixChain(s, s1, s2);
    assert AfterName(s).value == (src, s2[|src|..]);
    TakeDrop(s2, |src|);
  }

  lemma TakeDrop(s: string, n: nat)
    requires n <= |s|
    ensures s[..n] + s[n..] == s
  {
  }

  /** A suffix of the text after the first character of a suffix is a
    * suffix. */
  lemma SuffixChain(s: string, s1: string, s2: string)
    requires |s1| > 0 && Text.EndsWith(s, s1) && Text.EndsWith(s1[1..], s2)
    ensures Text.EndsWith(s, s2)
  {
    assert s1[1..] == s[|s| - |s1| + 1..];
    assert s1[1..][|s1| - 1 - |s2|..] == s[|s| - |s2|..];
  }

  /** Backtracking of the name `[^ #]*`: its longest length, at most k, after
    * which `=` and a source follow. */
  function NameCut(rest: string, k: nat): (r: Option<nat>)
    requires k <= |rest|
    ensures r.Some? ==> r.value <= k && AfterName(rest[r.value..]).Some?
    decreases k
  {
    if AfterName(rest[k..]).Some? then Some(k)
    else if k == 0 then None
    else NameCut(rest, k - 1)
  }

  /** The backtracking gives up only when no shorter name is followed by
    * `=` and a source either. */
  lemma {:induction false} NameCutNone(rest: string, k: nat, j: nat)
    requires k <= |rest| && j <= k
    requires NameCut(rest, k).None?
    ensures AfterName(rest[j..]).None?
    decreases k
  {
    NameCutStep(rest, k);
    if j < k {
      var k' := k - 1;
      assert NameCut(rest, k').None?;
      NameCutNone(rest, k', j);
    }
  }

  lemma NameCutStep(rest: string, k: nat)
    requires k <= |rest|
    ensures NameCut(rest, k).None? <==>
      AfterName(rest[k..]).None? && (k == 0 || NameCut(rest, k - 1).None?)
  {
  }

  /** `([ ]+type[ ]?=[ ]?[^ ]+)?` at the start of the text after the source. */
  function TypeClause(tail: string): (r: Option<string>)
    ensures r.Some? ==> Text.StartsWith(tail, r.value)
  {
    if |tail| > 0 && tail[0] == ' ' then
      var t1 := DropSpaces(tail);
      match ClauseHead(t1, "type")
      case None => None
      case Some(h) =>
        var run := NonSpaceRun(t1[h..]);
        if |run| > 0 then Some(tail[..|tail| - |t1| + h + |run|]) else None
    else None
  }

  /** The type a source gets when the line does not name one. */
  function InferKind(source: string): string
  {
    if '/' in source && !Text.EndsWith(source, ".tar.gz") then "path" else "galaxy"
  }

  /** Source.load(line); None when the line does not match. */
  function LoadSource(line: string): (r: Option<Source>)
    ensures r.Some? ==> |r.value.source| > 0 && ' ' !in r.value.source
  {
    var rest := DropSpaces(line);
    match NameCut(rest, |NameRun(rest)|)
    case None => None
    case Some(k) =>
      var found := AfterName(rest[k..]).value;
      Some(Source(rest[..k], found.0, SourceKind(found.0, found.1)))
  }

  /** The type of a loaded source: the named one (spaces removed, the text
    * after the last '='), else the inferred one. */
  function SourceKind(source: string, tail: string): string
  {
    match TypeClause(tail)
    case Some(raw) => Text.LastPart(Text.ReplaceChar(raw, ' ', ""), '=')
    case None => InferKind(source)
  }

  /** "<name> = <source>" loads with the inferred type; adding
    * " type=<kind>" makes the named type win. */
  lemma LoadRenderSource(name: string, source: string, kind: string)
    requires |name| > 0 && ' ' !in name && '#' !in name && '=' !in name
    requires |source| > 0 && ' ' !in source
    requires ' ' !in kind && '=' !in kind && |kind| > 0
    ensures LoadSource(name + " = " + source) == Some(Source(name, source, InferKind(source)))
    ensures LoadSource(name + " = " + source + (" type=" + kind)) == Some(Source(name, source, kind))
  {
    InferredSource(name, source);
    NamedSource(name, source, kind);
  }

  lemma InferredSource(name: string, source: string)
    requires |name| > 0 && ' ' !in name && '#' !in name && '=' !in name
    requires |source| > 0 && ' ' !in source
    ensures LoadSource(name + " = " + source) == Some(Source(name, source, InferKind(source)))
  {
    LoadRenderSourceTail(name, source, "");
    assert name + " = " + source + "" == name + " = " + source;
  }

  lemma NamedSource(name: string, source: string, kind: string)
    requires |name| > 0 && ' ' !in name && '#' !in name && '=' !in name
    requires |source| > 0 && ' ' !in source
    requires ' ' !in kind && '=' !in kind && |kind| > 0
    ensures LoadSource(name + " = " + source + (" type=" + kind)) == Some(Source(name, source, kind))
  {
    LoadRenderSourceTail(name, source, " type=" + kind);
    NamedKind(source, kind);
  }

  /** Helper for LoadRenderSource: a " type=<kind>" tail names the kind. */
  lemma NamedKind(source: string, kind: string)
    requires ' ' !in kind && '=' !in kind && |kind| > 0
    ensures SourceKind(source, " type=" + kind) == kind
  {
    TypeClauseOf(kind);
    SpacelessTypeClause(kind);
    ClauseValue("type", kind);
  }

  /** Removing the spaces of " type=<kind>" leaves "type" "=" <kind>. */
  lemma SpacelessTypeClause(kind: string)
    requires ' ' !in kind
    ensures Text.ReplaceChar(" type=" + kind, ' ', "") == "type" + "=" + kind
  {
    NoSpaceAfterType(kind);
    TypeTextParts(kind);
    Text.ReplaceLeadingChar(' ', "type=" + kind);
  }

  lemma TypeTextParts(kind: string)
    ensures " type=" + kind == [' '] + ("type=" + kind)
    ensures "type=" + kind == "type" + "=" + kind
  {
  }

  lemma NoSpaceAfterType(kind: string)
    requires ' ' !in kind
    ensures ' ' !in "type=" + kind
  {
    var u := "type=" + kind;
    forall i | 0 <= i < |u|
      ensures u[i] != ' '
    {
      if i >= 5 {
        assert u[i] == kind[i - 5];
      }
    }
  }

  /** Helper for NamedKind: the whole tail is the type clause. */
  lemma TypeClauseOf(kind: string)
    requires ' ' !in kind && |kind| > 0
    ensures TypeClause(" type=" + kind) == Some(" type=" + kind)
  {
    var t1 := "type=" + kind;
    TypeClauseParts(kind);
    DropOneSpace(t1);
    TypeHead(kind);
    NonSpaceRunOf(kind, "");
  }

  lemma TypeClauseParts(kind: string)
    ensures " type=" + kind == " " + ("type=" + kind)
    ensures |"type=" + kind| > 0 && ("type=" + kind)[0] == 't'
    ensures ("type=" + kind)[5..] == kind + ""
    ensures (" type=" + kind)[..|" type=" + kind|] == " type=" + kind
  {
  }

  lemma TypeHead(kind: string)
    requires ' ' !in kind && |kind| > 0
    ensures ClauseHead("type=" + kind, "type") == Some(5)
  {
    var t1 := "type=" + kind;
    assert t1[..4] == "type";
    assert t1[4] == '=';
    assert t1[5] == kind[0];
  }

  /** Helper for LoadRenderSource: the name and source of such a line. */
  lemma LoadRenderSourceTail(name: string, source: string, tail: string)
    requires |name| > 0 && ' ' !in name && '#' !in name && '=' !in name
    requires |source| > 0 && ' ' !in source
    requires |tail| > 0 ==> tail[0] == ' '
    ensures var line := name + " = " + source + tail;
      LoadSource(line) == Some(Source(name, source, SourceKind(source, tail)))
  {
    var line := name + " = " + source + tail;
    var after := " = " + source + tail;
    assert line == name + after;
    assert line[0] == name[0];
    assert DropSpaces(line) == line by {
      assert Utils.LeadingSpaces(line) == 0;
    }
    NameRunOf(name, after);
    assert line[|name|..] == after;
    AfterNameOf(source, tail);
    assert line[..|name|] == name;
  }

  /** Helper for LoadRenderSourceTail: what follows the name. */
  lemma AfterNameOf(source: string, tail: string)
    requires |source| > 0 && ' ' !in source
    requires |tail| > 0 ==> tail[0] == ' '
    ensures AfterName(" = " + source + tail) == Some((source, tail))
  {
    var rest := source + tail;
    AssignParts(source, tail);
    assert rest[0] == source[0];
    DropOneSpace(rest);
    DropOneSpace("= " + rest);
    NonSpaceRunOf(source, tail);
    assert rest[|source|..] == tail;
  }

  /** How " = <source><tail>" splits around its equals sign. */
  lemma AssignParts(source: string, tail: string)
    ensures " = " + source + tail == " " + ("= " + (source + tail))
    ensures ("= " + (source + tail))[0] == '='
    ensures ("= " + (source + tail))[1..] == " " + (source + tail)
  {
  }

  /** One space before a word is dropped; a word alone keeps its text. */
  lemma DropOneSpace(u: string)
    requires |u| > 0 && u[0] != ' '
    ensures DropSpaces(" " + u) == u
    ensures DropSpaces(u) == u
  {
    assert (" " + u)[1..] == u;
    assert Utils.LeadingSpaces(u) == 0;
  }

  /** Policy(is_policybook=True, policybook_data=pb) */
  function PolicybookPolicy(pb: Policybook.PolicySetAst): Models.Policy
  {
    Models.Policy("", "", true, "", Models.EmptyMetadata, "", Some(pb))
  }

  /** Source.install. `nonEmptyDir` tells whether a directory exists with
    * files in it, `isFile` whether a path is a file; `loadFile` and
    * `loadDir` read one policybook or every policybook under a directory.
    * None means the source is already installed. */
  function Install(
    s: Source, installRoot: string, force: bool,
    nonEmptyDir: string -> bool, isFile: string -> bool,
    loadFile: string -> Policybook.PolicySetAst,
    loadDir: string -> seq<Policybook.PolicySetAst>): (r: Result<Option<seq<Models.Policy>>>)
    ensures nonEmptyDir(Engines.PathJoin(installRoot, s.name)) && !force ==> r == Ok(None)
    ensures r.Err? <==>
      !(nonEmptyDir(Engines.PathJoin(installRoot, s.name)) && !force) && s.kind != "path" && s.kind != "galaxy"
    ensures r.Ok? && r.value.Some? ==>
      forall i :: 0 <= i < |r.value.value| ==> r.value.value[i].isPolicybook && r.value.value[i].policybookData.Some?
    ensures s.kind == "galaxy" ==> r == Ok(None) || r == Ok(Some([]))
  {
    var target := Engines.PathJoin(installRoot, s.name);
    if nonEmptyDir(target) && !force then Ok(None)
    else if s.kind != "path" && s.kind != "galaxy" then
      Err(ValueError("`" + s.kind + "` is not a supported policy type"))
    else
      var dir := if s.kind == "path" then s.source else "";
      if dir == "" then Ok(Some([]))
      else if isFile(dir) then Ok(Some([PolicybookPolicy(loadFile(dir))]))
      else
        var books := loadDir(dir);
        Ok(Some(seq(|books|, i requires 0 <= i < |books| => PolicybookPolicy(books[i]))))
  }

  /** SourceConfig.from_lines: every line that parses, in order. */
  function SourceFromLines(lines: seq<string>): seq<Source>
  {
    Seqs.FilterMap(lines, LoadSource)
  }

  /** The sources of a section read in two parts are those of the first
    * part followed by those of the second: lines are read in order. */
  lemma SourceFromLinesAppend(xs: seq<string>, ys: seq<string>)
    ensures SourceFromLines(xs + ys) == SourceFromLines(xs) + SourceFromLines(ys)
  {
    Seqs.FilterMapAppend(xs, ys, LoadSource);
  }

  /** A source is loaded exactly when some line of the section parses to
    * it, and there are never more sources than lines. */
  lemma SourceFromLinesSpec(lines: seq<string>, s: Source)
    ensures |SourceFromLines(lines)| <= |lines|
    ensures s in SourceFromLines(lines) <==> exists i :: 0 <= i < |lines| && LoadSource(lines[i]) == Some(s)
  {
    Seqs.FilterMapSpec(lines, LoadSource, s);
  }

  // ---------------------------------------------------------------------
  // Config.load: grouping the file into sections
  // ---------------------------------------------------------------------

  /** A character of `[a-zA-Z0-9._\-]`. */
  predicate FieldChar(c: char)
  {
    ('a' <= c <= 'z') || ('A' <= c <= 'Z') || ('0' <= c <= '9') || c == '.' || c == '_' || c == '-'
  }

  function FieldRun(s: string): (r: string)
    ensures |r| <= |s| && r == s[..|r|]
    ensures forall i :: 0 <= i < |r| ==> FieldChar(r[i])
    ensures |r| < |s| ==> !FieldChar(s[|r|])
  {
    if |s| > 0 && FieldChar(s[0]) then [s[0]] + FieldRun(s[1..]) else ""
  }

  /** `\[([a-zA-Z0-9._\-]+)\]` matched at the start of a line: the section
    * name. Text after the closing bracket is ignored. */
  function HeaderName(line: string): (r: Option<string>)
    ensures r.Some? ==> |r.value| > 0 && Text.StartsWith(line, "[" + r.value + "]")
  {
    if |line| > 0 && line[0] == '[' then
      var name := FieldRun(line[1..]);
      if |name| > 0 && 1 + |name| < |line| && line[1 + |name|] == ']' then
        assert line[..|name| + 2] == "[" + name + "]";
        Some(name)
      else None
    else None
  }

  /** The reading loop's state: the lines of each section so far, and the
    * current section ("" before the first header). */
  datatype Reader = Reader(sections: PyDict.Dict<string, seq<string>>, current: string)

  /** One stripped line of the file: blank lines are skipped, a header
    * (re)starts its section with no lines, any other line is appended to
    * the current section, which fails with KeyError before the first
    * header. */
  function ReadLine(st: Reader, line: string): (r: Result<Reader>)
    ensures r.Err? <==> line != "" && HeaderName(line).None? && st.current !in PyDict.Keys(st.sections)
  {
    if line == "" then Ok(st)
    else match HeaderName(line)
      case Some(f) => Ok(Reader(PyDict.Put(st.sections, f, []), f))
      case None =>
        match PyDict.Get(st.sections, st.current)
        case None => Err(KeyError(st.current))
        case Some(ls) => Ok(st.(sections := PyDict.Put(st.sections, st.current, ls + [line])))
  }

  function ReadLines(st: Reader, lines: seq<string>): Result<Reader>
    decreases |lines|
  {
    if |lines| == 0 then Ok(st)
    else
      match ReadLine(st, lines[0])
      case Err(e) => Err(e)
      case Ok(st') => ReadLines(st', lines[1..])
  }

  /** Each line of the file with its surrounding whitespace removed. */
  function StripAll(lines: seq<string>): (r: seq<string>)
    ensures |r| == |lines|
    ensures forall i :: 0 <= i < |lines| ==> r[i] == Text.Strip(lines[i])
  {
    seq(|lines|, i requires 0 <= i < |lines| => Text.Strip(lines[i]))
  }

  const Start := Reader([], "")

  /** Reading a file in two parts is reading it whole. */
  lemma {:induction false} ReadLinesAppend(st: Reader, xs: seq<string>, ys: seq<string>)
    ensures ReadLines(st, xs + ys) ==
      match ReadLines(st, xs)
      case Err(e) => Err(e)
      case Ok(mid) => ReadLines(mid, ys)
    decreases |xs|
  {
    if |xs| > 0 {
      assert (xs + ys)[0] == xs[0] && (xs + ys)[1..] == xs[1..] + ys;
      match ReadLine(st, xs[0])
      case Err(_) =>
      case Ok(st') => ReadLinesAppend(st', xs[1..], ys);
    } else {
      assert xs + ys == ys;
    }
  }

  /** The non-blank lines of a section body. */
  function BodyLines(lines: seq<string>): seq<string>
  {
    if |lines| == 0 then []
    else (if lines[0] == "" then [] else [lines[0]]) + BodyLines(lines[1..])
  }

  /** No line is a header. */
  predicate HeaderFree(lines: seq<string>)
  {
    forall i :: 0 <= i < |lines| ==> HeaderName(lines[i]).None?
  }

  /** Header-free lines go to the current section, which then holds what it
    * had plus their non-blank lines. */
  lemma {:induction false} AppendBody(st: Reader, ys: seq<string>, acc: seq<string>)
    requires PyDict.Get(st.sections, st.current) == Some(acc)
    requires HeaderFree(ys)
    ensures ReadLines(st, ys).Ok?
    ensures ReadLines(st, ys).value.current == st.current
    ensures PyDict.Get(ReadLines(st, ys).value.sections, st.current) == Some(acc + BodyLines(ys))
    decreases |ys|
  {
    if |ys| == 0 {
      assert acc + [] == acc;
    } else {
      var line := ys[0];
      var acc' := if line == "" then acc else acc + [line];
      var st' := BodyLine(st, line, acc);
      assert HeaderFree(ys[1..]) by {
        forall i | 0 <= i < |ys[1..]|
          ensures HeaderName(ys[1..][i]).None?
        {
          assert ys[1..][i] == ys[i + 1];
        }
      }
      assert ReadLines(st, ys) == ReadLines(st', ys[1..]);
      AppendBody(st', ys[1..], acc');
      var more := BodyLines(ys[1..]);
      assert BodyLines(ys) == (if line == "" then [] else [line]) + more;
      AccumulateBody(acc, line, more);
    }
  }

  /** Helper for AppendBody: the section grows by one line, then the rest. */
  lemma AccumulateBody(acc: seq<string>, line: string, more: seq<string>)
    ensures (if line == "" then acc else acc + [line]) + more == acc + ((if line == "" then [] else [line]) + more)
  {
    if line == "" {
      assert [] + more == more;
    } else {
      assert acc + [line] + more == acc + ([line] + more);
    }
  }

  /** Helper for AppendBody: one line that is not a header. */
  lemma BodyLine(st: Reader, line: string, acc: seq<string>) returns (st': Reader)
    requires PyDict.Get(st.sections, st.current) == Some(acc)
    requires HeaderName(line).None?
    ensures ReadLine(st, line) == Ok(st')
    ensures st'.current == st.current
    ensures PyDict.Get(st'.sections, st.current) == Some(if line == "" then acc else acc + [line])
  {
    if line == "" {
      st' := st;
    } else {
      st' := st.(sections := PyDict.Put(st.sections, st.current, acc + [line]));
      PyDict.GetPut(st.sections, st.current, acc + [line], st.current);
    }
  }

  /** A header discards whatever its section held: after the last header of
    * a section, the section holds exactly the lines that follow it. */
  lemma LastHeaderWins(xs: seq<string>, h: string, ys: seq<string>, f: string)
    requires ReadLines(Start, xs).Ok?
    requires HeaderName(h) == Some(f)
    requires HeaderFree(ys)
    ensures ReadLines(Start, xs + [h] + ys).Ok?
    ensures PyDict.Get(ReadLines(Start, xs + [h] + ys).value.sections, f) == Some(BodyLines(ys))
  {
    var mid := ReadLines(Start, xs).value;
    ReadLinesAppend(Start, xs, [h] + ys);
    assert xs + [h] + ys == xs + ([h] + ys);
    var st := HeaderLine(mid, h, f);
    assert ReadLines(mid, [h] + ys) == ReadLines(st, ys) by {
      assert ([h] + ys)[0] == h && ([h] + ys)[1..] == ys;
    }
    AppendBody(st, ys, []);
    assert [] + BodyLines(ys) == BodyLines(ys);
  }

  /** Helper for LastHeaderWins: a header line starts its section afresh. */
  lemma HeaderLine(st: Reader, h: string, f: string) returns (st': Reader)
    requires HeaderName(h) == Some(f)
    ensures ReadLine(st, h) == Ok(st')
    ensures st'.current == f
    ensures PyDict.Get(st'.sections, f) == Some([])
  {
    assert h != "" by {
      assert HeaderName("") == None;
    }
    st' := Reader(PyDict.Put(st.sections, f, []), f);
    PyDict.GetPut(st.sections, f, [], f);
  }

  /** A non-blank line before any header fails with KeyError(""). */
  lemma LineBeforeHeader(line: string, rest: seq<string>)
    requires line != "" && HeaderName(line).None?
    ensures ReadLines(Start, [line] + rest) == Err(KeyError(""))
  {
    assert ([line] + rest)[0] == line;
  }

  /** The three sections of the configuration. */
  datatype Config = Config(policy: seq<PolicyPattern>, sources: seq<Source>, pluginLines: seq<string>)

  const SectionNames: seq<string> := ["policy", "source", "plugin"]

  /** The `setattr` loop: sections in first-header order, failing with
    * ValueError at the first unknown name. */
  function ApplySections(c: Config, sections: PyDict.Dict<string, seq<string>>): (r: Result<Config>)
    ensures r.Err? <==> HasUnknown(sections)
    decreases |sections|
  {
    if |sections| == 0 then Ok(c)
    else
      UnknownStep(sections);
      match ApplyField(c, sections[0].0, sections[0].1)
      case None => Err(ValueError("`" + sections[0].0 + "` is an unknown field name in a config file"))
      case Some(c') => ApplySections(c', sections[1..])
  }

  /** Some section has a name that is not a field of the configuration. */
  predicate HasUnknown(sections: PyDict.Dict<string, seq<string>>)
  {
    exists i :: 0 <= i < |sections| && sections[i].0 !in SectionNames
  }

  /** One `setattr(self, field, lines)`: the field loads its section's
    * lines; a name that is no field gives None. */
  function ApplyField(c: Config, f: string, lines: seq<string>): (r: Option<Config>)
    ensures r.Some? <==> f in SectionNames
    ensures r.Some? && f == "policy" ==> r.value == c.(policy := PolicyFromLines(lines))
    ensures r.Some? && f == "source" ==> r.value == c.(sources := SourceFromLines(lines))
    ensures r.Some? && f == "plugin" ==> r.value == c.(pluginLines := lines)
  {
    if f == "policy" then Some(c.(policy := PolicyFromLines(lines)))
    else if f == "source" then Some(c.(sources := SourceFromLines(lines)))
    else if f == "plugin" then Some(c.(pluginLines := lines))
    else None
  }

  /** Helper for ApplySections: an unknown name is the first or a later one. */
  lemma UnknownStep(sections: PyDict.Dict<string, seq<string>>)
    requires |sections| > 0
    ensures HasUnknown(sections) <==> sections[0].0 !in SectionNames || HasUnknown(sections[1..])
  {
    if HasUnknown(sections) && sections[0].0 in SectionNames {
      var i :| 0 <= i < |sections| && sections[i].0 !in SectionNames;
      assert sections[1..][i - 1] == sections[i];
    }
    if HasUnknown(sections[1..]) {
      var i :| 0 <= i < |sections[1..]| && sections[1..][i].0 !in SectionNames;
      assert sections[i + 1] == sections[1..][i];
    }
  }

  /** Config.load over the lines of the file. The [plugin] lines are kept as
    * text; loading the plugins they name is not part of this model. */
  function LoadConfig(lines: seq<string>): (r: Result<Config>)
  {
    var st :- ReadLines(Start, StripAll(lines));
    ApplySections(Config([], [], []), st.sections)
  }

  /** With distinct section names, each field holds the loading of its own
    * section, and a missing section leaves the field empty. */
  lemma {:induction false} ApplyEachOnce(c: Config, sections: PyDict.Dict<string, seq<string>>)
    requires PyDict.UniqueKeys(sections)
    requires ApplySections(c, sections).Ok?
    ensures var r := ApplySections(c, sections).value;
      r.policy == (match PyDict.Get(sections, "policy") case Some(ls) => PolicyFromLines(ls) case None => c.policy)
      && r.sources == (match PyDict.Get(sections, "source") case Some(ls) => SourceFromLines(ls) case None => c.sources)
      && r.pluginLines == (match PyDict.Get(sections, "plugin") case Some(ls) => ls case None => c.pluginLines)
    decreases |sections|
  {
    if |sections| > 0 {
      var f := sections[0].0;
      var lines := sections[0].1;
      var rest := sections[1..];
      PyDict.UniqueStep(sections);
      var c' := ApplyField(c, f, lines).value;
      assert ApplySections(c, sections) == ApplySections(c', rest);
      ApplyEachOnce(c', rest);
      assert PyDict.Get(rest, f) == None;
    }
  }

  /** Every section name read from the file is unique in the mapping. */
  lemma {:induction false} ReadLinesUnique(st: Reader, lines: seq<string>)
    requires PyDict.UniqueKeys(st.sections)
    requires ReadLines(st, lines).Ok?
    ensures PyDict.UniqueKeys(ReadLines(st, lines).value.sections)
    decreases |lines|
  {
    if |lines| > 0 {
      var line := lines[0];
      if line != "" {
        match HeaderName(line)
        case Some(f) => PyDict.PutUnique(st.sections, f, []);
        case None =>
          var ls := PyDict.Get(st.sections, st.current).value;
          PyDict.PutUnique(st.sections, st.current, ls + [line]);
      }
      ReadLinesUnique(ReadLine(st, lines[0]).value, lines[1..]);
    }
  }

  /** A loaded configuration: each field is its section's lines, loaded. */
  lemma LoadConfigSections(lines: seq<string>)
    requires LoadConfig(lines).Ok?
    ensures var sections := ReadLines(Start, StripAll(lines)).value.sections;
      var c := LoadConfig(lines).value;
      c.policy == PolicyFromLines(PyDict.Get(sections, "policy").GetOr([]))
      && c.sources == SourceFromLines(PyDict.Get(sections, "source").GetOr([]))
      && c.pluginLines == PyDict.Get(sections, "plugin").GetOr([])
  {
    ReadLinesUnique(Start, StripAll(lines));
    var sections := ReadLines(Start, StripAll(lines)).value.sections;
    ApplyEachOnce(Config([], [], []), sections);
  }
}
