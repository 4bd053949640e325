/** JSON trees and their text, as cJSON prints and parses them. */
module JsonText {
  import opened Common
  import opened Decimal
  import opened JsonLiteral

  /** A number item carries its value twice; the printer looks at the floating-point field first. Only
      integral values of that field are modelled. */
  datatype Value =
    | Null
    | False
    | True
    | Number(valueint: int, valuedouble: int)
    | String(chars: string)
    | Array(items: seq<Value>)
    | Object(members: seq<Member>)

  datatype Member = Member(name: string, value: Value)

  const INT_MAX: int := 0x7FFF_FFFF
  const INT_MIN: int := -0x8000_0000

  predicate IsInt(n: int) { INT_MIN <= n <= INT_MAX }

  /** Trees the printer is specified for: C strings, and numbers that hold one `int` in both fields or
      whose floating-point field is zero. */
  predicate Printable(v: Value) {
    match v
    case Number(n, d) => IsInt(n) && (d == 0 || d == n)
    case String(s) => NulFree(s)
    case Array(items) => forall i :: 0 <= i < |items| ==> Printable(items[i])
    case Object(ms) => forall i :: 0 <= i < |ms| ==> NulFree(ms[i].name) && Printable(ms[i].value)
    case _ => true
  }

  /** Trees whose every number holds its value in both fields. */
  predicate Consistent(v: Value) {
    match v
    case Number(n, d) => d == n
    case Array(items) => forall i :: 0 <= i < |items| ==> Consistent(items[i])
    case Object(ms) => forall i :: 0 <= i < |ms| ==> Consistent(ms[i].value)
    case _ => true
  }

  // Printing

  const HEX: string := "0123456789abcdef"

  function EscapeChar(c: char): string {
    if c == '"' then "\\\""
    else if c == '\\' then "\\\\"
    else if c == '\U{0008}' then "\\b"
    else if c == '\U{000C}' then "\\f"
    else if c == '\n' then "\\n"
    else if c == '\r' then "\\r"
    else if c == '\t' then "\\t"
    else if c < ' ' then "\\u00" + [HEX[c as int / 16], HEX[c as int % 16]]
    else [c]
  }

  function Escape(s: string): string {
    if s == [] then [] else EscapeChar(s[0]) + Escape(s[1..])
  }

  function Quoted(s: string): string { "\"" + Escape(s) + "\"" }

  function NumberText(n: int, d: int): string {
    if d == 0 then "0" else Int(n)
  }

  function Tabs(n: int): string
    decreases n
  {
    if n <= 0 then "" else "\t" + Tabs(n - 1)
  }

  function When(fmt: bool, s: string): string { if fmt then s else "" }

  function Print(v: Value, depth: nat, fmt: bool): string
    decreases v, 1
  {
    match v
    case Null => "null"
    case False => "false"
    case True => "true"
    case Number(n, d) => NumberText(n, d)
    case String(s) => Quoted(s)
    case Array(items) => if items == [] then "[]" else "[" + PrintItems(items, depth + 1, fmt) + "]"
    case Object(ms) =>
      if ms == [] then "{" + When(fmt, "\n" + Tabs(depth - 1)) + "}"
      else "{" + When(fmt, "\n") + PrintMembers(ms, depth + 1, fmt) + When(fmt, Tabs(depth)) + "}"
  }

  function Separator(fmt: bool): string { "," + When(fmt, " ") }

  function PrintItems(items: seq<Value>, depth: nat, fmt: bool): string
    requires items != []
    decreases items, 0
  {
    if |items| == 1 then Print(items[0], depth, fmt)
    else Print(items[0], depth, fmt) + Separator(fmt) + PrintItems(items[1..], depth, fmt)
  }

  function MemberHead(name: string, depth: nat, fmt: bool): string {
    When(fmt, Tabs(depth)) + Quoted(name) + ":" + When(fmt, "\t")
  }

  function MemberEnd(last: bool, fmt: bool): string {
    (if last then "" else ",") + When(fmt, "\n")
  }

  function PrintMembers(ms: seq<Member>, depth: nat, fmt: bool): string
    requires ms != []
    decreases ms, 0
  {
    var head := MemberHead(ms[0].name, depth, fmt) + Print(ms[0].value, depth, fmt) + MemberEnd(|ms| == 1, fmt);
    if |ms| == 1 then head else head + PrintMembers(ms[1..], depth, fmt)
  }

  // Parsing

  /** What has been read, in front of what is read next. */
  function PrependAll<T>(xs: seq<T>, r: Parsed<seq<T>>): Parsed<seq<T>> {
    if r.Ok? then Ok(xs + r.value, r.rest) else r
  }

  function Skip(s: string): (r: string)
    ensures |r| <= |s|
  {
    if s != [] && s[0] != '\0' && s[0] <= ' ' then Skip(s[1..]) else s
  }

  /** Two's-complement `int` arithmetic. */
  function Wrap(n: int): int {
    (n - INT_MIN) % 0x1_0000_0000 + INT_MIN
  }

  function DigitsOf(s: string): (k: nat)
    ensures k <= |s| && AllDigits(s[..k]) && (k < |s| ==> !IsDigit(s[k]))
  {
    if s == [] || !IsDigit(s[0]) then 0
    else
      var k := 1 + DigitsOf(s[1..]);
      assert s[..k] == [s[0]] + s[1..][..k - 1];
      k
  }

  /** The value the digit loop accumulates. */
  function Accumulate(s: string): int
    requires AllDigits(s)
  {
    if s == [] then 0 else Wrap(10 * Accumulate(s[..|s| - 1]) + DigitValue(s[|s| - 1]))
  }

  /** A number behind its sign: one leading zero is skipped, then digits count only if the first is not zero. */
  function Magnitude(s: string): (r: (int, string))
    ensures |r.1| <= |s| && (IsDigit(At(s, 0)) ==> |r.1| < |s|)
  {
    var t := if At(s, 0) == '0' then s[1..] else s;
    var k := if '1' <= At(t, 0) <= '9' then DigitsOf(t) else 0;
    (Accumulate(t[..k]), t[k..])
  }

  function ParseNumber(s: string): (r: Parsed<Value>)
    ensures r.Ok? && |r.rest| <= |s|
    ensures At(s, 0) == '-' || IsDigit(At(s, 0)) ==> |r.rest| < |s|
  {
    var minus := At(s, 0) == '-';
    var m := Magnitude(if minus then s[1..] else s);
    Ok(Number(Wrap(if minus then -m.0 else m.0), 0), m.1)
  }

  function ParseValue(s: string): (r: Parsed<Value>)
    ensures r.Ok? ==> |r.rest| < |s|
    decreases |s|, 0
  {
    if "null" <= s then Ok(Null, s[4..])
    else if "false" <= s then Ok(False, s[5..])
    else if "true" <= s then Ok(True, s[4..])
    else if At(s, 0) == '"' then
      var b := ParseLiteral(s[1..]);
      if b.Ok? then Ok(String(b.value), b.rest) else Because(b)
    else if At(s, 0) == '-' || IsDigit(At(s, 0)) then ParseNumber(s)
    else if At(s, 0) == '[' then ParseArray(Skip(s[1..]))
    else if At(s, 0) == '{' then ParseObject(Skip(s[1..]))
    else Fail
  }

  /** An array behind its bracket and the white space there. */
  function ParseArray(t: string): (r: Parsed<Value>)
    ensures r.Ok? ==> |r.rest| < |t|
    decreases |t|, 2
  {
    if At(t, 0) == ']' then Ok(Array([]), t[1..])
    else
      var es := ParseItems(t);
      if es.Ok? then Ok(Array(es.value), es.rest) else Because(es)
  }

  /** An object behind its brace and the white space there. */
  function ParseObject(t: string): (r: Parsed<Value>)
    ensures r.Ok? ==> |r.rest| < |t|
    decreases |t|, 2
  {
    if At(t, 0) == '}' then Ok(Object([]), t[1..])
    else
      var ms := ParseMembers(t);
      if ms.Ok? then Ok(Object(ms.value), ms.rest) else Because(ms)
  }

  /** Items up to and including the closing bracket. */
  function ParseItems(s: string): (r: Parsed<seq<Value>>)
    ensures r.Ok? ==> |r.rest| < |s|
    decreases |s|, 1
  {
    var v := ParseValue(Skip(s));
    if v.Ok? then ItemsAfter(v.value, Skip(v.rest)) else Because(v)
  }

  /** An item that has been read, and the items behind it. */
  function ItemsAfter(v: Value, t: string): (r: Parsed<seq<Value>>)
    ensures r.Ok? ==> |r.rest| < |t|
    decreases |t|, 1
  {
    if At(t, 0) == ',' then PrependAll([v], ParseItems(t[1..]))
    else if At(t, 0) == ']' then Ok([v], t[1..])
    else Fail
  }

  /** A member's name and colon, with the white space around them. */
  function ParseName(s: string): (r: Parsed<string>)
    ensures r.Ok? ==> |r.rest| < |s|
  {
    var t := Skip(s);
    if At(t, 0) != '"' then Fail else BeforeColon(ParseLiteral(t[1..]))
  }

  function BeforeColon(name: Parsed<string>): (r: Parsed<string>)
    ensures r.Ok? ==> name.Ok? && |r.rest| < |name.rest|
  {
    if !name.Ok? then name
    else
      var t := Skip(name.rest);
      if At(t, 0) != ':' then Fail else Ok(name.value, Skip(t[1..]))
  }

  /** Members up to and including the closing brace. */
  function ParseMembers(s: string): (r: Parsed<seq<Member>>)
    ensures r.Ok? ==> |r.rest| < |s|
    decreases |s|, 1
  {
    var name := ParseName(s);
    if name.Ok? then ParseNamed(name.value, name.rest) else Because(name)
  }

  /** The value of a member whose name has been read, and the members behind it. */
  function ParseNamed(name: string, s: string): (r: Parsed<seq<Member>>)
    ensures r.Ok? ==> |r.rest| < |s|
    decreases |s|, 1
  {
    var v := ParseValue(s);
    if v.Ok? then MembersAfter(Member(name, v.value), Skip(v.rest)) else Because(v)
  }

  /** A member that has been read, and the members behind it. */
  function MembersAfter(m: Member, t: string): (r: Parsed<seq<Member>>)
    ensures r.Ok? ==> |r.rest| < |t|
    decreases |t|, 1
  {
    if At(t, 0) == ',' then PrependAll([m], ParseMembers(t[1..]))
    else if At(t, 0) == '}' then Ok([m], t[1..])
    else Fail
  }

  /** `cJSON_ParseWithOpts`: the tree and the text behind it; trailing text can be refused. */
  function ParseDocument(s: string, requireEnd: bool): Parsed<Value> {
    var r := ParseValue(Skip(s));
    if !r.Ok? || !requireEnd then r
    else if At(Skip(r.rest), 0) == '\0' then Ok(r.value, Skip(r.rest))
    else Fail
  }
}
