// clean_error_token, shared by the Cedar, legacy Cedar and Rego
// transpilers: the policy name made usable as a package or file name.

module Tokens {
  import Text

  /** The characters clean_error_token rewrites. */
  predicate Unclean(c: char)
  {
    c == ' ' || c == '-' || c == '?' || c == '(' || c == ')'
  }

  /** in_str.replace(" ", "_").replace("-", "_").replace("?", "")
    *       .replace("(", "_").replace(")", "_") */
  function CleanErrorToken(s: string): string
  {
    var a := Text.ReplaceChar(s, ' ', "_");
    var b := Text.ReplaceChar(a, '-', "_");
    var c := Text.ReplaceChar(b, '?', "");
    var d := Text.ReplaceChar(c, '(', "_");
    Text.ReplaceChar(d, ')', "_")
  }

  /** The same rewrite stated one character at a time. */
  function CleanChar(c: char): string
  {
    if c == '?' then "" else if Unclean(c) then "_" else [c]
  }

  function CleanEach(s: string): (r: string)
  {
    if |s| == 0 then "" else CleanChar(s[0]) + CleanEach(s[1..])
  }

  /** The five chained replacements agree with the per-character rewrite. */
  lemma {:induction false} CleanErrorTokenIsCleanEach(s: string)
    ensures CleanErrorToken(s) == CleanEach(s)
  {
    if |s| > 0 {
      CleanErrorTokenIsCleanEach(s[1..]);
      ReplaceCharCons(s, ' ', "_");
      var a := Text.ReplaceChar(s, ' ', "_");
      var a1 := Text.ReplaceChar(s[1..], ' ', "_");
      ReplaceCharCons(a, '-', "_");
      var b := Text.ReplaceChar(a, '-', "_");
      var b1 := Text.ReplaceChar(a1, '-', "_");
      assert |a| > 0;
      assert a[1..] == a1;
      ReplaceCharCons(b, '?', "");
      var c := Text.ReplaceChar(b, '?', "");
      var c1 := Text.ReplaceChar(b1, '?', "");
      var hb := if a[0] == '-' then "_" else [a[0]];
      assert b == hb + b1;
      if s[0] == '?' {
        assert c == c1;
      } else {
        ReplaceCharCons(c, '(', "_");
        ReplaceCharCons(Text.ReplaceChar(c, '(', "_"), ')', "_");
      }
    }
  }

  lemma ReplaceCharCons(s: string, c: char, repl: string)
    requires |s| > 0
    ensures Text.ReplaceChar(s, c, repl) == (if s[0] == c then repl else [s[0]]) + Text.ReplaceChar(s[1..], c, repl)
  {
  }

  /** '?' is the only character removed: every other one is replaced by one
    * character, so the length shrinks by exactly the number of '?'. */
  lemma {:induction false} CleanErrorTokenLength(s: string)
    ensures |CleanErrorToken(s)| == |s| - Text.Count(s, '?')
  {
    CleanErrorTokenIsCleanEach(s);
    CleanEachLength(s);
  }

  lemma {:induction false} CleanEachLength(s: string)
    ensures |CleanEach(s)| == |s| - Text.Count(s, '?')
  {
    if |s| > 0 {
      CleanEachLength(s[1..]);
    }
  }

  /** A cleaned name is already clean: applying the rewrite twice is the
    * same as applying it once. */
  lemma CleanErrorTokenIdempotent(s: string)
    ensures CleanErrorToken(CleanErrorToken(s)) == CleanErrorToken(s)
  {
    var r := CleanErrorToken(s);
    CleanErrorTokenClean(s);
    assert ' ' !in r && '-' !in r && '?' !in r && '(' !in r && ')' !in r;
  }

  /** A cleaned name holds none of the rewritten characters, and every
    * character in it is the input's or an underscore. */
  lemma CleanErrorTokenClean(s: string)
    ensures forall i :: 0 <= i < |CleanErrorToken(s)| ==> !Unclean(CleanErrorToken(s)[i])
    ensures forall c :: c in CleanErrorToken(s) ==> c in s || c == '_'
  {
    CleanErrorTokenIsCleanEach(s);
    CleanEachClean(s);
  }

  lemma {:induction false} CleanEachClean(s: string)
    ensures forall i :: 0 <= i < |CleanEach(s)| ==> !Unclean(CleanEach(s)[i])
    ensures forall c :: c in CleanEach(s) ==> c in s || c == '_'
    decreases |s|
  {
    if |s| > 0 {
      CleanEachClean(s[1..]);
      var h := CleanChar(s[0]);
      var t := CleanEach(s[1..]);
      assert CleanEach(s) == h + t;
      assert forall i :: 0 <= i < |h| ==> !Unclean(h[i]);
      assert forall i :: |h| <= i < |h + t| ==> (h + t)[i] == t[i - |h|];
    }
  }
}
