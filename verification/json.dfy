// JSON values as Python's json module produces and consumes them, Python
// truthiness, json.dumps with its default settings (", " and ": "
// separators, ensure_ascii escaping) and the subscript operations the
// engines apply to decoded output.

module Json {
  import opened Wrappers
  import Text
  import PyDict

  /** A float is kept as its repr token ("3.1415"), never computed with. */
  datatype Json =
    | JNull
    | JBool(b: bool)
    | JInt(i: int)
    | JFloat(repr: string)
    | JStr(s: string)
    | JArr(items: seq<Json>)
    | JObj(fields: seq<(string, Json)>)

  /** bool(v) in Python. */
  predicate Truthy(v: Json)
  {
    match v
    case JNull => false
    case JBool(b) => b
    case JInt(i) => i != 0
    case JFloat(repr) => repr != "0.0" && repr != "-0.0"
    case JStr(s) => |s| > 0
    case JArr(items) => |items| > 0
    case JObj(fields) => |fields| > 0
  }

  function HexDigit(d: nat): (c: char)
    requires d < 16
    ensures Printable(c)
  {
    "0123456789abcdef"[d]
  }

  /** '{0:04x}'.format(n) for n below 0x10000. */
  function Hex4(n: nat): (r: string)
    requires n < 0x10000
    ensures |r| == 4 && AsciiText(r)
  {
    var a, b, c, d := HexDigit(n / 0x1000), HexDigit((n / 0x100) % 16), HexDigit((n / 0x10) % 16), HexDigit(n % 16);
    [a, b, c, d]
  }

  predicate Printable(c: char)
  {
    ' ' <= c <= '~'
  }

  predicate AsciiText(s: string)
  {
    forall i :: 0 <= i < |s| ==> Printable(s[i])
  }

  /** The ensure_ascii escape of one character: backslash, quote and the five
    * C escapes by name, other printable ASCII verbatim, everything else as
    * \uXXXX (a surrogate pair above the Basic Multilingual Plane). */
  function EscapeChar(c: char): (r: string)
    ensures AsciiText(r)
    ensures |r| >= 1
  {
    if c == '"' then "\\\""
    else if c == '\\' then "\\\\"
    else if c == '\n' then "\\n"
    else if c == '\r' then "\\r"
    else if c == '\t' then "\\t"
    else if c == '\U{8}' then "\\b"
    else if c == '\U{c}' then "\\f"
    else if Printable(c) then [c]
    else UnicodeEscape(c as int)
  }

  /** \\uXXXX, or the UTF-16 surrogate pair for a code point above 0xFFFF. */
  function UnicodeEscape(n: nat): (r: string)
    requires n < 0x110000
    ensures AsciiText(r) && |r| >= 1
  {
    if n < 0x10000 then
      var r := "\\u" + Hex4(n);
      assert AsciiText("\\u");
      r
    else
      var m := n - 0x10000;
      var hi := Hex4(0xd800 + (m / 0x400) % 0x400);
      var lo := Hex4(0xdc00 + m % 0x400);
      assert AsciiText("\\u");
      "\\u" + hi + "\\u" + lo
  }

  function EscapeString(s: string): (r: string)
    ensures AsciiText(r)
    ensures |r| >= |s|
  {
    if |s| == 0 then "" else EscapeChar(s[0]) + EscapeString(s[1..])
  }

  /** Printable ASCII without quote or backslash is written as it is. */
  lemma {:induction false} EscapePlain(s: string)
    requires forall i :: 0 <= i < |s| ==> Printable(s[i]) && s[i] != '"' && s[i] != '\\'
    ensures EscapeString(s) == s
  {
    if |s| > 0 {
      EscapePlain(s[1..]);
      assert s == [s[0]] + s[1..];
    }
  }

  /** json.dumps of a string. */
  function Quote(s: string): (r: string)
    ensures AsciiText(r)
    ensures |r| >= 2 && r[0] == '"' && r[|r| - 1] == '"'
  {
    "\"" + EscapeString(s) + "\""
  }

  /** json.dumps(v) with the default separators and ensure_ascii. */
  function Dumps(v: Json): string
    decreases v
  {
    match v
    case JNull => "null"
    case JBool(b) => if b then "true" else "false"
    case JInt(i) => Text.IntToStr(i)
    case JFloat(repr) => repr
    case JStr(s) => Quote(s)
    case JArr(items) =>
      "[" + Text.Join(seq(|items|, i requires 0 <= i < |items| => Dumps(items[i])), ", ") + "]"
    case JObj(fields) =>
      "{" + Text.Join(seq(|fields|, i requires 0 <= i < |fields| =>
                        Quote(fields[i].0) + ": " + Dumps(fields[i].1)), ", ") + "}"
  }

  /** json.dumps of a list of strings, as used for tag lists. */
  function DumpsStrings(xs: seq<string>): (r: string)
  {
    Dumps(JArr(seq(|xs|, i requires 0 <= i < |xs| => JStr(xs[i]))))
  }

  lemma {:induction false} JoinAscii(xs: seq<string>, sep: string)
    requires AsciiText(sep)
    requires forall i :: 0 <= i < |xs| ==> AsciiText(xs[i])
    ensures AsciiText(Text.Join(xs, sep))
  {
    if |xs| > 1 {
      JoinAscii(xs[1..], sep);
      var rest := Text.Join(xs[1..], sep);
      assert Text.Join(xs, sep) == xs[0] + sep + rest;
      assert AsciiText(xs[0] + sep);
    }
  }

  predicate AsciiFloats(v: Json)
    decreases v
  {
    match v
    case JFloat(repr) => AsciiText(repr)
    case JArr(items) => forall i :: 0 <= i < |items| ==> AsciiFloats(items[i])
    case JObj(fields) => forall i :: 0 <= i < |fields| ==> AsciiFloats(fields[i].1)
    case _ => true
  }

  lemma IntToStrAscii(i: int)
    ensures AsciiText(Text.IntToStr(i))
  {
    var d := Text.NatToStr(if i < 0 then -i else i);
    assert forall k :: 0 <= k < |d| ==> Text.IsDigit(d[k]);
  }

  /** With ensure_ascii every character of the output is printable ASCII,
    * whatever the strings inside hold. */
  lemma {:induction false} DumpsAscii(v: Json)
    requires AsciiFloats(v)
    ensures AsciiText(Dumps(v))
    decreases v
  {
    match v
    case JInt(i) => IntToStrAscii(i);
    case JArr(items) =>
      var parts := seq(|items|, i requires 0 <= i < |items| => Dumps(items[i]));
      forall i | 0 <= i < |items|
        ensures AsciiText(parts[i])
      {
        DumpsAscii(items[i]);
      }
      JoinAscii(parts, ", ");
    case JObj(fields) =>
      var parts := seq(|fields|, i requires 0 <= i < |fields| =>
                     Quote(fields[i].0) + ": " + Dumps(fields[i].1));
      forall i | 0 <= i < |fields|
        ensures AsciiText(parts[i])
      {
        DumpsAscii(fields[i].1);
      }
      JoinAscii(parts, ", ");
    case _ =>
  }

  /** `key in v` for a decoded value. */
  function In(key: string, v: Json): (r: Result<bool>)
    ensures r.Err? <==> !(v.JObj? || v.JArr? || v.JStr?)
    ensures v.JObj? ==> r == Ok(key in PyDict.Keys(v.fields))
  {
    match v
    case JObj(fields) => Ok(key in PyDict.Keys(fields))
    case JArr(items) => Ok(JStr(key) in items)
    case JStr(s) => Ok(Text.Contains(s, key))
    case _ => Err(TypeError("argument of type is not iterable"))
  }

  /** v[key] for a string key. */
  function GetItem(v: Json, key: string): (r: Result<Json>)
    ensures r.Ok? <==> v.JObj? && key in PyDict.Keys(v.fields)
    ensures r.Ok? ==> PyDict.Get(v.fields, key) == Some(r.value)
  {
    match v
    case JObj(fields) =>
      (match PyDict.Get(fields, key)
       case Some(x) => Ok(x)
       case None => Err(KeyError(key)))
    case _ => Err(TypeError("indices must be integers or subscript not supported"))
  }

  /** v[0]. */
  function First(v: Json): (r: Result<Json>)
    ensures r.Ok? <==> (v.JArr? && |v.items| > 0) || (v.JStr? && |v.s| > 0)
  {
    match v
    case JArr(items) => if |items| > 0 then Ok(items[0]) else Err(IndexError)
    case JStr(s) => if |s| > 0 then Ok(JStr([s[0]])) else Err(IndexError)
    case JObj(_) => Err(KeyError("0"))
    case _ => Err(TypeError("object is not subscriptable"))
  }

  /** v.get(key, default). */
  function GetOr(v: Json, key: string, default: Json): (r: Result<Json>)
    ensures r.Err? <==> !v.JObj?
    ensures v.JObj? && key !in PyDict.Keys(v.fields) ==> r == Ok(default)
    ensures v.JObj? && key in PyDict.Keys(v.fields) ==> r == GetItem(v, key)
  {
    match v
    case JObj(fields) => Ok(PyDict.Get(fields, key).GetOr(default))
    case _ => Err(AttributeError("object has no attribute 'get'"))
  }
}
