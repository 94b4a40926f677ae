// The parts of Python's str API the modelled code relies on: join, split on
// one character, strip, replace, prefix tests, str(int) and int(str).

module Text {
  import opened Wrappers

  /** sep.join(xs) */
  function Join(xs: seq<string>, sep: string): string
  {
    if |xs| == 0 then ""
    else if |xs| == 1 then xs[0]
    else xs[0] + sep + Join(xs[1..], sep)
  }

  lemma JoinSnoc(xs: seq<string>, x: string, sep: string)
    requires |xs| > 0
    ensures Join(xs + [x], sep) == Join(xs, sep) + sep + x
  {
    if |xs| == 1 {
      assert xs + [x] == [xs[0], x];
    } else {
      assert (xs + [x])[1..] == xs[1..] + [x];
      JoinSnoc(xs[1..], x, sep);
    }
  }

  /** s.split(c) for a one-character separator: never empty, no part holds c. */
  function Split(s: string, c: char): (parts: seq<string>)
    ensures |parts| >= 1
    ensures forall i :: 0 <= i < |parts| ==> c !in parts[i]
    decreases |s|
  {
    if |s| == 0 then [""]
    else if s[0] == c then [""] + Split(s[1..], c)
    else
      var rest := Split(s[1..], c);
      [[s[0]] + rest[0]] + rest[1..]
  }

  /** Joining the parts of a split with the separator gives the text back. */
  lemma {:induction false} JoinSplit(s: string, c: char)
    ensures Join(Split(s, c), [c]) == s
    decreases |s|
  {
    if |s| > 0 {
      JoinSplit(s[1..], c);
      if s[0] == c {
        JoinSplitAtSeparator(s, c);
      } else {
        JoinSplitAtChar(s, c);
      }
    }
  }

  /** Helper for JoinSplit: a text that starts with the separator. */
  lemma JoinSplitAtSeparator(s: string, c: char)
    requires |s| > 0 && s[0] == c
    requires Join(Split(s[1..], c), [c]) == s[1..]
    ensures Join(Split(s, c), [c]) == s
  {
    var rest := Split(s[1..], c);
    if |rest| == 1 {
      assert Join([""] + rest, [c]) == "" + [c] + rest[0];
    } else {
      assert ([""] + rest)[1..] == rest;
    }
    assert s == [c] + s[1..];
  }

  /** Helper for JoinSplit: a text that starts with another character. */
  lemma JoinSplitAtChar(s: string, c: char)
    requires |s| > 0 && s[0] != c
    requires Join(Split(s[1..], c), [c]) == s[1..]
    ensures Join(Split(s, c), [c]) == s
  {
    var rest := Split(s[1..], c);
    var parts := [[s[0]] + rest[0]] + rest[1..];
    assert Split(s, c) == parts;
    assert s == [s[0]] + s[1..];
    if |rest| == 1 {
      assert Join(parts, [c]) == parts[0];
    } else {
      assert parts[1..] == rest[1..];
      var j := Join(rest[1..], [c]);
      assert Join(parts, [c]) == ([s[0]] + rest[0]) + [c] + j;
      assert Join(rest, [c]) == rest[0] + [c] + j;
      ConcatAssoc([s[0]], rest[0], [c], j);
    }
  }

  lemma ConcatAssoc(a: string, b: string, c: string, d: string)
    ensures (a + b) + c + d == a + (b + c + d)
  {
  }

  /** Splitting a join of separator-free parts gives the parts back. */
  lemma {:induction false} SplitJoin(xs: seq<string>, c: char)
    requires |xs| >= 1
    requires forall i :: 0 <= i < |xs| ==> c !in xs[i]
    ensures Split(Join(xs, [c]), c) == xs
    decreases |xs|, |xs[0]|
  {
    if |xs[0]| > 0 {
      var head := xs[0];
      var ys := [head[1..]] + xs[1..];
      SplitJoin(ys, c);
      assert Join(xs, [c]) == [head[0]] + Join(ys, [c]) by {
        if |xs| == 1 {
          assert head == [head[0]] + head[1..];
        } else {
          assert ys[1..] == xs[1..];
          assert head == [head[0]] + head[1..];
        }
      }
      assert head[0] in xs[0];
      assert ([head[0]] + Join(ys, [c]))[1..] == Join(ys, [c]);
    } else if |xs| > 1 {
      SplitJoin(xs[1..], c);
      assert Join(xs, [c]) == [c] + Join(xs[1..], [c]);
      assert ([c] + Join(xs[1..], [c]))[1..] == Join(xs[1..], [c]);
    }
  }

  /** The first part of s.split(c) is the text before the first c; there is
    * more than one part exactly when c occurs. */
  lemma {:induction false} SplitHead(s: string, c: char)
    ensures var p := Split(s, c)[0];
      StartsWith(s, p) && (|p| < |s| ==> s[|p|] == c)
    ensures |Split(s, c)| > 1 <==> c in s
    decreases |s|
  {
    if |s| > 0 && s[0] != c {
      SplitHead(s[1..], c);
      var rest := Split(s[1..], c);
      assert Split(s, c)[0] == [s[0]] + rest[0];
      assert s == [s[0]] + s[1..];
    }
  }

  /** A character other than the one replaced survives the replacement. */
  lemma {:induction false} ReplaceCharKeeps(s: string, c: char, repl: string, d: char)
    requires d != c && d in s
    ensures d in ReplaceChar(s, c, repl)
    decreases |s|
  {
    if s[0] != d {
      ReplaceCharKeeps(s[1..], c, repl, d);
    }
  }

  /** The last part of s.split(c), i.e. s.split(c)[-1]. */
  function LastPart(s: string, c: char): (r: string)
  {
    var parts := Split(s, c);
    parts[|parts| - 1]
  }

  predicate StartsWith(s: string, prefix: string)
  {
    |prefix| <= |s| && s[..|prefix|] == prefix
  }

  predicate EndsWith(s: string, suffix: string)
  {
    |suffix| <= |s| && s[|s| - |suffix|..] == suffix
  }

  /** Python's `sub in s` for strings. */
  predicate Contains(s: string, sub: string)
  {
    exists i | 0 <= i <= |s| :: OccursAt(s, sub, i)
  }

  predicate OccursAt(s: string, sub: string, i: int)
  {
    0 <= i && i + |sub| <= |s| && s[i..i + |sub|] == sub
  }

  /** str.isspace() for one character (the Unicode White_Space property as
    * Python reports it). */
  predicate IsSpace(c: char)
  {
    c == ' ' || ('\t' <= c <= '\r') || ('\U{1c}' <= c <= '\U{1f}') || c == '\U{85}'
    || c == '\U{a0}' || c == '\U{1680}' || ('\U{2000}' <= c <= '\U{200a}') || c == '\U{2028}'
    || c == '\U{2029}' || c == '\U{202f}' || c == '\U{205f}' || c == '\U{3000}'
  }

  function TrimLeft(s: string): (r: string)
    ensures |r| <= |s| && r == s[|s| - |r|..]
    ensures |r| > 0 ==> !IsSpace(r[0])
  {
    if |s| > 0 && IsSpace(s[0]) then TrimLeft(s[1..]) else s
  }

  /** TrimLeft removes only whitespace. */
  lemma {:induction false} TrimLeftSpaces(s: string)
    ensures forall i :: 0 <= i < |s| - |TrimLeft(s)| ==> IsSpace(s[i])
    decreases |s|
  {
    if |s| > 0 && IsSpace(s[0]) {
      TrimLeftSpaces(s[1..]);
      assert forall i :: 1 <= i < |s| - |TrimLeft(s)| ==> s[i] == s[1..][i - 1];
    }
  }

  function TrimRight(s: string): (r: string)
    ensures |r| <= |s| && r == s[..|r|]
    ensures |r| > 0 ==> !IsSpace(r[|r| - 1])
  {
    if |s| > 0 && IsSpace(s[|s| - 1]) then TrimRight(s[..|s| - 1]) else s
  }

  /** TrimRight removes only whitespace. */
  lemma {:induction false} TrimRightSpaces(s: string)
    ensures forall i :: |TrimRight(s)| <= i < |s| ==> IsSpace(s[i])
    decreases |s|
  {
    if |s| > 0 && IsSpace(s[|s| - 1]) {
      TrimRightSpaces(s[..|s| - 1]);
    }
  }

  /** str.strip(): the longest inner slice with no surrounding whitespace. */
  function Strip(s: string): (r: string)
    ensures |r| <= |s|
    ensures |r| > 0 ==> !IsSpace(r[0]) && !IsSpace(r[|r| - 1])
  {
    TrimRight(TrimLeft(s))
  }

  /** s.replace(c, by) for a one-character pattern. */
  function ReplaceChar(s: string, c: char, repl: string): (r: string)
    ensures c !in repl ==> c !in r
    ensures forall d :: d in r ==> d in s || d in repl
    ensures c !in s ==> r == s
  {
    if |s| == 0 then ""
    else (if s[0] == c then repl else [s[0]]) + ReplaceChar(s[1..], c, repl)
  }

  /** Removing a character from the front of a text that has no other. */
  lemma ReplaceLeadingChar(c: char, u: string)
    requires c !in u
    ensures ReplaceChar([c] + u, c, "") == u
  {
    assert ([c] + u)[1..] == u;
  }

  lemma {:induction false} ReplaceCharLength(s: string, c: char, d: char)
    ensures |ReplaceChar(s, c, [d])| == |s|
  {
    if |s| > 0 {
      ReplaceCharLength(s[1..], c, d);
    }
  }

  /** Number of occurrences of c in s. */
  function Count(s: string, c: char): nat
  {
    if |s| == 0 then 0 else (if s[0] == c then 1 else 0) + Count(s[1..], c)
  }

  /** Removing a character shortens the text by exactly its occurrences. */
  lemma {:induction false} RemoveCharLength(s: string, c: char)
    ensures |ReplaceChar(s, c, "")| == |s| - Count(s, c)
  {
    if |s| > 0 {
      RemoveCharLength(s[1..], c);
    }
  }

  /** Drops the leading empty strings of a list. */
  function DropLeadingEmpty(xs: seq<string>): (r: seq<string>)
    ensures |r| <= |xs| && r == xs[|xs| - |r|..]
    ensures |r| > 0 ==> r[0] != ""
    ensures forall i :: 0 <= i < |xs| - |r| ==> xs[i] == ""
  {
    if |xs| > 0 && xs[0] == "" then DropLeadingEmpty(xs[1..]) else xs
  }

  function DigitChar(d: nat): char
    requires d < 10
  {
    "0123456789"[d]
  }

  predicate IsDigit(c: char)
  {
    '0' <= c <= '9'
  }

  /** str(n) for a natural number. */
  function NatToStr(n: nat): (r: string)
    ensures |r| >= 1
    ensures AllDigits(r)
  {
    if n < 10 then [DigitChar(n)] else NatToStr(n / 10) + [DigitChar(n % 10)]
  }

  /** str(i) for a Python int. */
  function IntToStr(i: int): (r: string)
    ensures |r| >= 1
  {
    if i < 0 then "-" + NatToStr(-i) else NatToStr(i)
  }

  function DigitValue(c: char): (d: nat)
    requires IsDigit(c)
    ensures d < 10
  {
    c as int - '0' as int
  }

  lemma DigitNotSpace(c: char)
    requires IsDigit(c)
    ensures !IsSpace(c)
  {
  }

  /** The value of a run of decimal digits. */
  function DigitsValue(s: string): nat
    requires forall i :: 0 <= i < |s| ==> IsDigit(s[i])
  {
    if |s| == 0 then 0
    else DigitsValue(s[..|s| - 1]) * 10 + DigitValue(s[|s| - 1])
  }

  lemma {:induction false} DigitsOfNatToStr(n: nat)
    ensures DigitsValue(NatToStr(n)) == n
  {
    if n >= 10 {
      DigitsOfNatToStr(n / 10);
      var s := NatToStr(n);
      assert s[..|s| - 1] == NatToStr(n / 10);
    }
  }

  predicate AllDigits(s: string)
  {
    forall i :: 0 <= i < |s| ==> IsDigit(s[i])
  }

  /** int(s) for ASCII decimal text: surrounding whitespace and one sign are
    * accepted; anything else is a ValueError. */
  const IntLiteralError: string := "invalid literal for int() with base 10"

  function ParseInt(s: string): Result<int>
  {
    ParseStripped(Strip(s))
  }

  /** int() of text already stripped of surrounding whitespace. */
  function ParseStripped(t: string): (r: Result<int>)
    ensures r.Ok? ==> |t| >= 1
    ensures r.Ok? && AllDigits(t) ==> r.value == DigitsValue(t)
  {
    if |t| >= 1 && (t[0] == '-' || t[0] == '+') then
      var digits := t[1..];
      if |digits| >= 1 && AllDigits(digits) then
        Ok(if t[0] == '-' then -(DigitsValue(digits) as int) else DigitsValue(digits))
      else Err(ValueError(IntLiteralError))
    else if |t| >= 1 && AllDigits(t) then Ok(DigitsValue(t))
    else Err(ValueError(IntLiteralError))
  }

  lemma StripOfDigits(s: string)
    requires AllDigits(s)
    ensures Strip(s) == s
  {
    if |s| > 0 {
      DigitNotSpace(s[0]);
      DigitNotSpace(s[|s| - 1]);
    }
  }

  lemma StripOfSigned(d: string)
    requires |d| >= 1 && AllDigits(d)
    ensures Strip("-" + d) == "-" + d
  {
    var s := "-" + d;
    assert !IsSpace(s[0]);
    assert TrimLeft(s) == s;
    assert s[|s| - 1] == d[|d| - 1];
    DigitNotSpace(d[|d| - 1]);
  }

  /** Text that stripping leaves alone is parsed as it stands. */
  lemma ParseOfStripped(t: string)
    requires Strip(t) == t
    ensures ParseInt(t) == ParseStripped(t)
  {
  }

  lemma ParseSignedAsStripped(d: string)
    requires |d| >= 1 && AllDigits(d)
    ensures ParseInt("-" + d) == ParseStripped("-" + d)
  {
    StripOfSigned(d);
    ParseOfStripped("-" + d);
  }

  lemma StrippedNegative(d: string)
    requires |d| >= 1 && AllDigits(d)
    ensures ParseStripped("-" + d).Ok? && ParseStripped("-" + d).value == -(DigitsValue(d) as int)
  {
    var t := "-" + d;
    assert t[1..] == d;
    assert t[0] == '-';
  }

  lemma StrippedDigits(d: string)
    requires |d| >= 1 && AllDigits(d)
    ensures ParseStripped(d).Ok? && ParseStripped(d).value == DigitsValue(d)
  {
  }

  /** A minus sign followed by digits parses to the negated digits. */
  lemma ParseNegative(d: string)
    requires |d| >= 1 && AllDigits(d)
    ensures ParseInt("-" + d).Ok? && ParseInt("-" + d).value == -(DigitsValue(d) as int)
  {
    ParseSignedAsStripped(d);
    StrippedNegative(d);
  }

  /** Bare digits parse to their value. */
  lemma ParseDigits(d: string)
    requires |d| >= 1 && AllDigits(d)
    ensures ParseInt(d).Ok? && ParseInt(d).value == DigitsValue(d)
  {
    StripOfDigits(d);
    ParseOfStripped(d);
    StrippedDigits(d);
  }

  lemma IntToStrNegative(i: int)
    requires i < 0
    ensures IntToStr(i) == "-" + NatToStr(-i)
  {
  }

  lemma ParseNegativeOf(d: string, n: int)
    requires |d| >= 1 && AllDigits(d) && DigitsValue(d) == n
    ensures ParseInt("-" + d).Ok? && ParseInt("-" + d).value == -n
  {
    ParseNegative(d);
  }

  lemma ParseMinusNatToStr(i: int)
    requires i < 0
    ensures ParseInt("-" + NatToStr(-i)).Ok? && ParseInt("-" + NatToStr(-i)).value == i
  {
    DigitsOfNatToStr(-i);
    ParseNegativeOf(NatToStr(-i), -i);
  }

  lemma ParseIntToStrNegative(i: int)
    requires i < 0
    ensures ParseInt(IntToStr(i)).Ok? && ParseInt(IntToStr(i)).value == i
  {
    ParseMinusNatToStr(i);
    IntToStrNegative(i);
  }

  lemma ParseIntToStrNatural(i: int)
    requires i >= 0
    ensures ParseInt(IntToStr(i)).Ok? && ParseInt(IntToStr(i)).value == i
  {
    DigitsOfNatToStr(i);
    ParseDigits(NatToStr(i));
  }

  /** int(str(i)) == i. */
  lemma ParseIntToStr(i: int)
    ensures ParseInt(IntToStr(i)) == Ok(i)
  {
    if i < 0 {
      ParseIntToStrNegative(i);
    } else {
      ParseIntToStrNatural(i);
    }
  }
}
