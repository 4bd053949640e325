/** Parsing what was printed. */
module JsonRoundTrip {
  import opened Common
  import opened Decimal
  import opened JsonLiteral
  import opened JsonText

  // Strings

  lemma DecodeShort(e: char, c: char, t: string)
    requires Unescape([e] + t) == Unescaped([c], 1)
    ensures DecodeBody(['\\', e] + t) == var b := DecodeBody(t); Body([c] + b.bytes, b.rest)
  {
    var s := ['\\', e] + t;
    assert s[1..] == [e] + t && s[2..] == t;
    DecodeEscape(s, Unescaped([c], 1), t);
  }

  lemma HexControl(c: char, h: char, l: char, t: string)
    requires '\0' < c < ' ' && h == HEX[c as int / 16] && l == HEX[c as int % 16]
    ensures Hex4(['0', '0', h, l] + t) == c as int
  {
    HexDigit(c as int / 16);
    HexDigit(c as int % 16);
    var q := ['0', '0', h, l] + t;
    assert At(q, 0) == '0' && At(q, 1) == '0' && At(q, 2) == h && At(q, 3) == l;
    Hex4Digits(q);
  }

  lemma DecodeControl(c: char, h: char, l: char, t: string)
    requires '\0' < c < ' ' && h == HEX[c as int / 16] && l == HEX[c as int % 16]
    ensures DecodeBody(['\\', 'u', '0', '0', h, l] + t) == var b := DecodeBody(t); Body([c] + b.bytes, b.rest)
  {
    var s := ['\\', 'u', '0', '0', h, l] + t;
    HexControl(c, h, l, t);
    assert s[1..][1..] == ['0', '0', h, l] + t;
    assert Unescape(s[1..]) == Unescaped([c], 5);
    assert s[6..] == t;
  }

  lemma HexDigit(d: nat)
    requires d < 16
    ensures IsHex(HEX[d]) && HexValue(HEX[d]) == d
  {}

  lemma DecodeChar(c: char, t: string)
    requires c != '\0'
    ensures DecodeBody(EscapeChar(c) + t) == var b := DecodeBody(t); Body([c] + b.bytes, b.rest)
  {
    if c < ' ' && c != '\U{0008}' && c != '\U{000C}' && c != '\n' && c != '\r' && c != '\t' {
      var h, l := HEX[c as int / 16], HEX[c as int % 16];
      DecodeControl(c, h, l, t);
      assert EscapeChar(c) == ['\\', 'u', '0', '0', h, l];
    } else if |EscapeChar(c)| == 2 {
      DecodeShort(EscapeChar(c)[1], c, t);
      assert EscapeChar(c) == ['\\', EscapeChar(c)[1]];
    } else {
      DecodePlain(c, t);
    }
  }

  /** Every C string comes back from its quoted form, whatever follows. */
  lemma {:induction false} DecodeEscaped(s: string, rest: string)
    requires NulFree(s)
    ensures DecodeBody(Escape(s) + "\"" + rest) == Body(s, rest)
  {
    if s == [] {
      assert Escape(s) + "\"" + rest == "\"" + rest;
      assert ("\"" + rest)[1..] == rest;
    } else {
      DecodeEscaped(s[1..], rest);
      var t := Escape(s[1..]) + "\"" + rest;
      Associative(EscapeChar(s[0]), Escape(s[1..]), "\"");
      Associative(EscapeChar(s[0]), Escape(s[1..]) + "\"", rest);
      DecodeChar(s[0], t);
      assert s == [s[0]] + s[1..];
    }
  }

  lemma WholeChar(c: char, t: string)
    requires c != '\0' && WholeEscapes(t)
    ensures WholeEscapes(EscapeChar(c) + t)
  {
    var e := EscapeChar(c);
    if |e| == 6 {
      WholeControl(e, t);
    } else if |e| == 2 {
      assert (e + t)[2..] == t;
    } else {
      assert (e + t)[1..] == t;
    }
  }

  lemma WholeControl(e: string, t: string)
    requires |e| == 6 && e[0] == '\\' && e[1] == 'u' && FourPlain(e[2..]) && WholeEscapes(t)
    ensures WholeEscapes(e + t)
  {
    var s := e + t;
    assert s[6..] == t;
    forall i | 0 <= i < 4 ensures s[2..][i] == e[2..][i] {}
  }

  lemma {:induction false} WholeEscaped(s: string, rest: string)
    requires NulFree(s)
    ensures WholeEscapes(Escape(s) + "\"" + rest)
  {
    if s == [] {
      assert Escape(s) + "\"" + rest == "\"" + rest;
    } else {
      WholeEscaped(s[1..], rest);
      Associative(EscapeChar(s[0]), Escape(s[1..]), "\"");
      Associative(EscapeChar(s[0]), Escape(s[1..]) + "\"", rest);
      WholeChar(s[0], Escape(s[1..]) + "\"" + rest);
    }
  }

  /** The parser reads it back inside its bounds. */
  lemma ParseEscaped(s: string, rest: string)
    requires NulFree(s)
    ensures ParseLiteral(Escape(s) + "\"" + rest) == Ok(s, rest)
  {
    DecodeEscaped(s, rest);
    WholeEscaped(s, rest);
    WholeEscapesStay(Escape(s) + "\"" + rest);
  }

  // Numbers

  lemma WrapStep(n: int, d: int)
    ensures Wrap(10 * Wrap(n) + d) == Wrap(10 * n + d)
  {
    var q := (n - INT_MIN) / 0x1_0000_0000;
    assert Wrap(n) == n - 0x1_0000_0000 * q;
    WrapShift(10 * n + d, -10 * q);
  }

  lemma WrapShift(n: int, k: int)
    ensures Wrap(n + 0x1_0000_0000 * k) == Wrap(n)
  {}

  lemma {:induction false} AccumulateValue(s: string)
    requires AllDigits(s)
    ensures Accumulate(s) == Wrap(ValueOf(s))
  {
    if s != [] {
      AccumulateValue(s[..|s| - 1]);
      WrapStep(ValueOf(s[..|s| - 1]), DigitValue(s[|s| - 1]));
    }
  }

  predicate NoDigit(s: string) { !IsDigit(At(s, 0)) }

  lemma {:induction false} DigitsEnd(s: string, t: string)
    requires AllDigits(s) && NoDigit(t)
    ensures DigitsOf(s + t) == |s|
  {
    if s == [] {
      assert s + t == t;
    } else {
      assert (s + t)[1..] == s[1..] + t;
      DigitsEnd(s[1..], t);
    }
  }

  lemma ParseDigits(d: string, n: nat, suffix: string, t: string)
    requires d != [] && AllDigits(d) && d[0] != '0' && ValueOf(d) == n && NoDigit(suffix) && t == d + suffix
    ensures '1' <= At(t, 0) <= '9' && DigitsOf(t) == |d| && Accumulate(t[..|d|]) == Wrap(n) && t[|d|..] == suffix
  {
    DigitsEnd(d, suffix);
    SliceAppend(d, suffix, |d|);
    AccumulateValue(d);
  }

  lemma ParseMagnitude(t: string, k: nat, rest: string)
    requires '1' <= At(t, 0) <= '9' && DigitsOf(t) == k && t[k..] == rest
    ensures Magnitude(t) == (Accumulate(t[..k]), rest)
  {}

  lemma ParseUnsigned(t: string, n: int, rest: string)
    requires At(t, 0) != '-' && Magnitude(t) == (Wrap(n), rest) && IsInt(n)
    ensures ParseNumber(t) == Ok(Number(n, 0), rest)
  {
    WrapInt(n);
  }

  lemma ParseSigned(t: string, n: int, rest: string)
    requires Magnitude(t) == (Wrap(n), rest) && IsInt(-n)
    ensures ParseNumber(['-'] + t) == Ok(Number(-n, 0), rest)
  {
    assert (['-'] + t)[1..] == t;
    WrapInt(n);
  }

  lemma WrapInt(n: int)
    ensures IsInt(n) ==> Wrap(Wrap(n)) == n
    ensures IsInt(-n) ==> Wrap(-Wrap(n)) == -n
  {}

  lemma MagnitudeOfDigits(n: nat, suffix: string)
    requires n > 0 && NoDigit(suffix)
    ensures At(Digits(n) + suffix, 0) != '-' && Magnitude(Digits(n) + suffix) == (Wrap(n), suffix)
  {
    var d := Digits(n);
    ValueOfDigits(n);
    ParseDigits(d, n, suffix, d + suffix);
    ParseMagnitude(d + suffix, |d|, suffix);
  }

  /** Every `int` comes back from its decimal form if no digit follows it. */
  lemma ParsePrintedNumber(n: int, suffix: string)
    requires IsInt(n) && NoDigit(suffix)
    ensures ParseNumber(NumberText(n, n) + suffix) == Ok(Number(n, 0), suffix)
  {
    if n > 0 {
      MagnitudeOfDigits(n, suffix);
      ParseUnsigned(Digits(n) + suffix, n, suffix);
    } else if n < 0 {
      Associative("-", Digits(-n), suffix);
      MagnitudeOfDigits(-n, suffix);
      ParseSigned(Digits(-n) + suffix, -n, suffix);
    } else {
      assert ("0" + suffix)[1..] == suffix;
    }
  }

  // White space

  lemma SkipOne(c: char, t: string)
    requires '\0' < c <= ' '
    ensures Skip([c] + t) == Skip(t)
  {
    assert ([c] + t)[1..] == t;
  }

  lemma {:induction false} SkipTabs(n: int, t: string)
    ensures Skip(Tabs(n) + t) == Skip(t)
    decreases n
  {
    if n <= 0 {
      assert Tabs(n) + t == t;
    } else {
      SkipTabs(n - 1, t);
      Associative("\t", Tabs(n - 1), t);
      SkipOne('\t', Tabs(n - 1) + t);
    }
  }

  lemma SkipStays(t: string)
    requires t != [] && t[0] > ' '
    ensures Skip(t) == t
  {}

  // Trees

  /** What the parser builds from a printed tree: the integer build leaves the floating-point field of a
      number at zero. */
  function AsParsed(v: Value): Value
    decreases v, 1
  {
    match v
    case Number(n, _) => Number(n, 0)
    case Array(items) => Array(AsParsedItems(items))
    case Object(ms) => Object(AsParsedMembers(ms))
    case _ => v
  }

  function AsParsedItems(items: seq<Value>): (r: seq<Value>)
    decreases items, 0
  {
    if items == [] then [] else [AsParsed(items[0])] + AsParsedItems(items[1..])
  }

  function AsParsedMembers(ms: seq<Member>): (r: seq<Member>)
    decreases ms, 0
  {
    if ms == [] then [] else [Member(ms[0].name, AsParsed(ms[0].value))] + AsParsedMembers(ms[1..])
  }

  /** Trees the round trip is stated for. */
  predicate Storable(v: Value) { Printable(v) && Consistent(v) }

  predicate StartsToken(s: string) { s != [] && s[0] > ' ' && s[0] != ']' && s[0] != '}' && s[0] != ',' }

  lemma PrintStartsToken(v: Value, depth: nat, fmt: bool)
    ensures StartsToken(Print(v, depth, fmt))
  {}

  lemma NoLiteral(s: string)
    requires At(s, 0) != 'n' && At(s, 0) != 'f' && At(s, 0) != 't'
    ensures !("null" <= s) && !("false" <= s) && !("true" <= s)
  {
    assert "null"[0] == 'n' && "false"[0] == 'f' && "true"[0] == 't';
  }

  lemma NumberDispatch(s: string)
    requires At(s, 0) == '-' || IsDigit(At(s, 0))
    ensures ParseValue(s) == ParseNumber(s)
  {
    NoLiteral(s);
  }

  lemma StringDispatch(s: string, suffix: string)
    requires NulFree(s)
    ensures ParseValue(Quoted(s) + suffix) == Ok(String(s), suffix)
  {
    ParseQuoted(s, suffix);
    NoLiteral(Quoted(s) + suffix);
  }

  lemma LiteralDispatch(suffix: string)
    ensures ParseValue("null" + suffix) == Ok(Null, suffix)
    ensures ParseValue("false" + suffix) == Ok(False, suffix)
    ensures ParseValue("true" + suffix) == Ok(True, suffix)
  {
    var n, f, t := "null" + suffix, "false" + suffix, "true" + suffix;
    assert "null" <= n && n[4..] == suffix;
    assert "null"[0] != f[0] && "false" <= f && f[5..] == suffix;
    assert "null"[0] != t[0] && "false"[0] != t[0] && "true" <= t && t[4..] == suffix;
  }

  lemma ParseScalar(v: Value, depth: nat, fmt: bool, suffix: string)
    requires Storable(v) && NoDigit(suffix) && !v.Array? && !v.Object?
    ensures ParseValue(Print(v, depth, fmt) + suffix) == Ok(AsParsed(v), suffix)
  {
    match v
    case Number(n, d) =>
      ParsePrintedNumber(n, suffix);
      NumberDispatch(NumberText(n, d) + suffix);
    case String(s) => StringDispatch(s, suffix);
    case _ => LiteralDispatch(suffix);
  }

  lemma LeadingSpace(w: string, t: string)
    requires w == "" || w == " " || w == "\n" || w == "\t"
    ensures Skip(w + t) == Skip(t)
  {
    if w == "" {
      assert w + t == t;
    } else {
      SkipOne(w[0], t);
      assert w == [w[0]];
    }
  }

  // Arrays

  lemma ItemsSkip(s: string, t: string)
    requires Skip(s) == Skip(t)
    ensures ParseItems(s) == ParseItems(t)
  {}

  /** One item, and what its successor character makes of the rest. */
  lemma ParseOneItem(p: string, after: string, v: Value)
    requires StartsToken(p) && after != [] && after[0] > ' '
    requires ParseValue(p + after) == Ok(v, after)
    ensures after[0] == ']' ==> ParseItems(p + after) == Ok([v], after[1..])
    ensures after[0] == ',' ==>
              var r := ParseItems(after[1..]);
              ParseItems(p + after) == if r.Ok? then Ok([v] + r.value, r.rest) else r
  {
    SkipStays(p + after);
    SkipStays(after);
  }

  lemma {:induction false} RoundTripItems(items: seq<Value>, depth: nat, fmt: bool, suffix: string)
    requires items != [] && forall i :: 0 <= i < |items| ==> Storable(items[i])
    ensures ParseItems(PrintItems(items, depth, fmt) + ("]" + suffix)) == Ok(AsParsedItems(items), suffix)
    decreases items, 0
  {
    var p, close := Print(items[0], depth, fmt), "]" + suffix;
    PrintStartsToken(items[0], depth, fmt);
    if |items| == 1 {
      RoundTrip(items[0], depth, fmt, close);
      ParseOneItem(p, close, AsParsed(items[0]));
      assert items[1..] == [] && AsParsedItems(items) == [AsParsed(items[0])];
      assert close[1..] == suffix;
    } else {
      var w, rest := When(fmt, " "), PrintItems(items[1..], depth, fmt) + close;
      ItemsText(items, depth, fmt, close);
      var after := "," + (w + rest);
      RoundTrip(items[0], depth, fmt, after);
      ParseOneItem(p, after, AsParsed(items[0]));
      assert after[1..] == w + rest;
      LeadingSpace(w, rest);
      ItemsSkip(w + rest, rest);
      RoundTripItems(items[1..], depth, fmt, suffix);
    }
  }

  lemma ItemsText(items: seq<Value>, depth: nat, fmt: bool, close: string)
    requires |items| > 1
    ensures PrintItems(items, depth, fmt) + close ==
            Print(items[0], depth, fmt) + ("," + (When(fmt, " ") + (PrintItems(items[1..], depth, fmt) + close)))
  {
    var p, w, r := Print(items[0], depth, fmt), When(fmt, " "), PrintItems(items[1..], depth, fmt);
    Associative(p + ("," + w), r, close);
    Associative(p, "," + w, r + close);
    Associative(",", w, r + close);
  }

  // Objects

  lemma MembersSkip(s: string, t: string)
    requires Skip(s) == Skip(t)
    ensures ParseMembers(s) == ParseMembers(t)
  {}

  /** One member: `q` is the text after its colon, `p` the text of its value. */
  lemma ParseOneMember(s: string, name: string, q: string, p: string, after: string, v: Value)
    requires NulFree(name) && Skip(s) == Quoted(name) + (":" + q)
    requires StartsToken(p) && Skip(q) == p + after && ParseValue(p + after) == Ok(v, after)
    ensures ParseMembers(s) == MembersAfter(Member(name, v), Skip(after))
  {
    ParsePrintedName(s, name, q);
    SkipStays(p + after);
    assert ParseMembers(s) == ParseNamed(name, p + after);
  }

  lemma ParsePrintedName(s: string, name: string, q: string)
    requires NulFree(name) && Skip(s) == Quoted(name) + (":" + q)
    ensures ParseName(s) == Ok(name, Skip(q))
  {
    ParseQuoted(name, ":" + q);
    SkipStays(":" + q);
    assert (":" + q)[1..] == q;
  }

  lemma ParseQuoted(s: string, rest: string)
    requires NulFree(s)
    ensures var t := Quoted(s) + rest; t != [] && t[0] == '"' && ParseLiteral(t[1..]) == Ok(s, rest)
  {
    ParseEscaped(s, rest);
    Associative("\"", Escape(s), "\"");
    Associative("\"", Escape(s) + "\"", rest);
    var t := Escape(s) + "\"" + rest;
    assert ("\"" + t)[1..] == t;
  }

  lemma MemberText(m: Member, last: bool, depth: nat, fmt: bool, more: string)
    ensures MemberHead(m.name, depth, fmt) + Print(m.value, depth, fmt) + MemberEnd(last, fmt) + more ==
            When(fmt, Tabs(depth)) + (Quoted(m.name) + (":" + (When(fmt, "\t") +
              (Print(m.value, depth, fmt) + (MemberEnd(last, fmt) + more)))))
  {
    var w, q, t := When(fmt, Tabs(depth)), Quoted(m.name), When(fmt, "\t");
    var p, e := Print(m.value, depth, fmt), MemberEnd(last, fmt);
    Associative(w + q + ":" + t + p, e, more);
    Associative(w + q + ":" + t, p, e + more);
    Associative(w + q + ":", t, p + (e + more));
    Associative(w + q, ":", t + (p + (e + more)));
    Associative(w, q, ":" + (t + (p + (e + more))));
  }

  /** The first member of `s`, given that its value parses. */
  lemma FirstMember(s: string, m: Member, last: bool, depth: nat, fmt: bool, more: string, suffix: string, v: Value)
    requires NulFree(m.name) && depth > 0
    requires last ==> more == When(fmt, Tabs(depth - 1)) + ("}" + suffix)
    requires s == MemberHead(m.name, depth, fmt) + Print(m.value, depth, fmt) + MemberEnd(last, fmt) + more
    requires var after := MemberEnd(last, fmt) + more;
             ParseValue(Print(m.value, depth, fmt) + after) == Ok(v, after)
    ensures last ==> ParseMembers(s) == Ok([Member(m.name, v)], suffix)
    ensures !last ==> var r := ParseMembers(more);
                      ParseMembers(s) == if r.Ok? then Ok([Member(m.name, v)] + r.value, r.rest) else r
  {
    var p, after := Print(m.value, depth, fmt), MemberEnd(last, fmt) + more;
    var q := When(fmt, "\t") + (p + after);
    var t := Quoted(m.name) + (":" + q);
    MemberText(m, last, depth, fmt, more);
    PrintStartsToken(m.value, depth, fmt);
    AfterMember(last, depth, fmt, suffix, more);
    LeadingSpace(When(fmt, "\t"), p + after);
    SkipStays(p + after);
    SkipTabs(depth, t);
    assert !fmt ==> When(fmt, Tabs(depth)) + t == t;
    SkipStays(t);
    ParseOneMember(s, m.name, q, p, after, v);
    MembersSkip(When(fmt, "\n") + more, more);
  }

  lemma {:induction false} RoundTripMembers(ms: seq<Member>, depth: nat, fmt: bool, suffix: string)
    requires ms != [] && depth > 0
    requires forall i :: 0 <= i < |ms| ==> NulFree(ms[i].name) && Storable(ms[i].value)
    ensures ParseMembers(PrintMembers(ms, depth, fmt) + (When(fmt, Tabs(depth - 1)) + ("}" + suffix))) ==
            Ok(AsParsedMembers(ms), suffix)
    decreases ms, 0
  {
    var m, last, close := ms[0], |ms| == 1, When(fmt, Tabs(depth - 1)) + ("}" + suffix);
    if last {
      AfterMember(last, depth, fmt, suffix, close);
      RoundTrip(m.value, depth, fmt, MemberEnd(last, fmt) + close);
      ParseLastMember(ms, depth, fmt, suffix, close);
    } else {
      var more := PrintMembers(ms[1..], depth, fmt) + close;
      AfterMember(last, depth, fmt, suffix, more);
      RoundTrip(m.value, depth, fmt, MemberEnd(last, fmt) + more);
      RoundTripMembers(ms[1..], depth, fmt, suffix);
      ParseFirstMember(ms, depth, fmt, suffix, close, AsParsedMembers(ms[1..]));
    }
  }

  lemma ParseLastMember(ms: seq<Member>, depth: nat, fmt: bool, suffix: string, close: string)
    requires |ms| == 1 && depth > 0 && NulFree(ms[0].name) && close == When(fmt, Tabs(depth - 1)) + ("}" + suffix)
    requires var after := MemberEnd(true, fmt) + close;
             ParseValue(Print(ms[0].value, depth, fmt) + after) == Ok(AsParsed(ms[0].value), after)
    ensures ParseMembers(PrintMembers(ms, depth, fmt) + close) == Ok(AsParsedMembers(ms), suffix)
  {
    MembersText(ms, depth, fmt, close);
    FirstMember(PrintMembers(ms, depth, fmt) + close, ms[0], true, depth, fmt, close, suffix, AsParsed(ms[0].value));
    assert ms[1..] == [] && AsParsedMembers(ms) == [Member(ms[0].name, AsParsed(ms[0].value))];
  }

  lemma ParseFirstMember(ms: seq<Member>, depth: nat, fmt: bool, suffix: string, close: string, vs: seq<Member>)
    requires |ms| > 1 && depth > 0 && NulFree(ms[0].name)
    requires var after := MemberEnd(false, fmt) + (PrintMembers(ms[1..], depth, fmt) + close);
             ParseValue(Print(ms[0].value, depth, fmt) + after) == Ok(AsParsed(ms[0].value), after)
    requires ParseMembers(PrintMembers(ms[1..], depth, fmt) + close) == Ok(vs, suffix)
    ensures ParseMembers(PrintMembers(ms, depth, fmt) + close) ==
            Ok([Member(ms[0].name, AsParsed(ms[0].value))] + vs, suffix)
  {
    MembersText(ms, depth, fmt, close);
    FirstMember(PrintMembers(ms, depth, fmt) + close, ms[0], false, depth, fmt,
                PrintMembers(ms[1..], depth, fmt) + close, suffix, AsParsed(ms[0].value));
  }

  lemma MembersText(ms: seq<Member>, depth: nat, fmt: bool, close: string)
    requires ms != []
    ensures PrintMembers(ms, depth, fmt) + close ==
            MemberHead(ms[0].name, depth, fmt) + Print(ms[0].value, depth, fmt) + MemberEnd(|ms| == 1, fmt) +
            (if |ms| == 1 then close else PrintMembers(ms[1..], depth, fmt) + close)
  {
    if |ms| > 1 {
      var head := MemberHead(ms[0].name, depth, fmt) + Print(ms[0].value, depth, fmt) + MemberEnd(false, fmt);
      Associative(head, PrintMembers(ms[1..], depth, fmt), close);
    }
  }

  /** What follows a member's value is no digit, and skipping white space reaches the comma or brace. */
  lemma AfterMember(last: bool, depth: nat, fmt: bool, suffix: string, more: string)
    requires depth > 0 && (last ==> more == When(fmt, Tabs(depth - 1)) + ("}" + suffix))
    ensures var after := MemberEnd(last, fmt) + more;
            && NoDigit(after)
            && (last ==> Skip(after) == "}" + suffix && Skip(after)[1..] == suffix)
            && (!last ==> Skip(after) == "," + (When(fmt, "\n") + more) && Skip(after)[1..] == When(fmt, "\n") + more)
            && Skip(When(fmt, "\n") + more) == Skip(more)
  {
    var nl := When(fmt, "\n");
    LeadingSpace(nl, more);
    if last {
      assert MemberEnd(last, fmt) == nl;
      SkipTabs(depth - 1, "}" + suffix);
      SkipStays("}" + suffix);
      assert !fmt ==> nl + more == "}" + suffix;
    } else {
      Associative(",", nl, more);
      SkipStays("," + (nl + more));
    }
  }

  /** The round trip: a printed tree followed by anything but a digit parses back to the same tree, and
      the parser stops exactly where the printed text ends. */
  lemma {:induction false} RoundTrip(v: Value, depth: nat, fmt: bool, suffix: string)
    requires Storable(v) && NoDigit(suffix)
    ensures ParseValue(Print(v, depth, fmt) + suffix) == Ok(AsParsed(v), suffix)
    decreases v, 1
  {
    match v
    case Array(items) => RoundTripArray(items, depth, fmt, suffix);
    case Object(ms) => RoundTripObject(ms, depth, fmt, suffix);
    case _ => ParseScalar(v, depth, fmt, suffix);
  }

  lemma {:induction false} RoundTripArray(items: seq<Value>, depth: nat, fmt: bool, suffix: string)
    requires forall i :: 0 <= i < |items| ==> Storable(items[i])
    ensures ParseValue(Print(Array(items), depth, fmt) + suffix) == Ok(AsParsed(Array(items)), suffix)
    decreases items, 1
  {
    if items == [] {
      OpenBracket("]" + suffix);
      assert "[]" + suffix == "[" + ("]" + suffix);
      assert ("]" + suffix)[1..] == suffix;
    } else {
      var t := PrintItems(items, depth + 1, fmt) + ("]" + suffix);
      Associative("[" + PrintItems(items, depth + 1, fmt), "]", suffix);
      Associative("[", PrintItems(items, depth + 1, fmt), "]" + suffix);
      ItemsStartToken(items, depth + 1, fmt);
      RoundTripItems(items, depth + 1, fmt, suffix);
      OpenBracket(t);
    }
  }

  lemma ItemsStartToken(items: seq<Value>, depth: nat, fmt: bool)
    requires items != []
    ensures StartsToken(PrintItems(items, depth, fmt))
  {
    PrintStartsToken(items[0], depth, fmt);
  }

  lemma ArrayDispatch(t: string)
    ensures ParseValue("[" + t) == ParseArray(Skip(t))
  {
    assert ("[" + t)[1..] == t;
    NoLiteral("[" + t);
  }

  lemma ObjectDispatch(t: string)
    ensures ParseValue("{" + t) == ParseObject(Skip(t))
  {
    assert ("{" + t)[1..] == t;
    NoLiteral("{" + t);
  }

  lemma OpenBracket(t: string)
    requires t != [] && t[0] > ' '
    ensures t[0] == ']' ==> ParseValue("[" + t) == Ok(Array([]), t[1..])
    ensures t[0] != ']' ==>
              var r := ParseItems(t);
              ParseValue("[" + t) == if r.Ok? then Ok(Array(r.value), r.rest) else Because(r)
  {
    ArrayDispatch(t);
    SkipStays(t);
  }

  lemma {:induction false} RoundTripObject(ms: seq<Member>, depth: nat, fmt: bool, suffix: string)
    requires forall i :: 0 <= i < |ms| ==> NulFree(ms[i].name) && Storable(ms[i].value)
    ensures ParseValue(Print(Object(ms), depth, fmt) + suffix) == Ok(AsParsed(Object(ms)), suffix)
    decreases ms, 1
  {
    if ms == [] {
      ParseEmptyObject(ms, depth, fmt, suffix);
    } else {
      var vs := AsParsedMembers(ms);
      assert AsParsed(Object(ms)) == Object(vs);
      RoundTripMembers(ms, depth + 1, fmt, suffix);
      ParseFilledObject(ms, depth, fmt, suffix, vs);
    }
  }

  lemma ParseEmptyObject(ms: seq<Member>, depth: nat, fmt: bool, suffix: string)
    requires ms == []
    ensures ParseValue(Print(Object(ms), depth, fmt) + suffix) == Ok(AsParsed(Object(ms)), suffix)
  {
    EmptyObjectText(depth, fmt, suffix);
    OpenBrace(When(fmt, "\n" + Tabs(depth - 1)) + ("}" + suffix), "}" + suffix);
  }

  lemma ParseFilledObject(ms: seq<Member>, depth: nat, fmt: bool, suffix: string, vs: seq<Member>)
    requires ms != []
    requires ParseMembers(PrintMembers(ms, depth + 1, fmt) + (When(fmt, Tabs(depth)) + ("}" + suffix))) == Ok(vs, suffix)
    ensures ParseValue(Print(Object(ms), depth, fmt) + suffix) == Ok(Object(vs), suffix)
  {
    var nl, t := When(fmt, "\n"), PrintMembers(ms, depth + 1, fmt) + (When(fmt, Tabs(depth)) + ("}" + suffix));
    ObjectText(ms, depth, fmt, suffix);
    MembersFirst(ms, depth + 1, fmt, When(fmt, Tabs(depth)) + ("}" + suffix));
    LeadingSpace(nl, t);
    OpenBrace(nl + t, Skip(t));
    MembersSkip(Skip(t), t);
  }

  lemma OpenBrace(s: string, t: string)
    requires Skip(s) == t && t != [] && t[0] > ' '
    ensures t[0] == '}' ==> ParseValue("{" + s) == Ok(Object([]), t[1..])
    ensures t[0] != '}' ==>
              var r := ParseMembers(t);
              ParseValue("{" + s) == if r.Ok? then Ok(Object(r.value), r.rest) else Because(r)
  {
    ObjectDispatch(s);
  }

  lemma EmptyObjectText(depth: nat, fmt: bool, suffix: string)
    ensures var w := When(fmt, "\n" + Tabs(depth - 1));
            && Print(Object([]), depth, fmt) + suffix == "{" + (w + ("}" + suffix))
            && Skip(w + ("}" + suffix)) == "}" + suffix && ("}" + suffix)[1..] == suffix
  {
    var w, close := When(fmt, "\n" + Tabs(depth - 1)), "}" + suffix;
    Associative("{" + w, "}", suffix);
    Associative("{", w, close);
    SkipStays(close);
    if fmt {
      Associative("\n", Tabs(depth - 1), close);
      LeadingSpace("\n", Tabs(depth - 1) + close);
      SkipTabs(depth - 1, close);
    } else {
      assert w + close == close;
    }
  }

  lemma ObjectText(ms: seq<Member>, depth: nat, fmt: bool, suffix: string)
    requires ms != []
    ensures Print(Object(ms), depth, fmt) + suffix ==
            "{" + (When(fmt, "\n") + (PrintMembers(ms, depth + 1, fmt) + (When(fmt, Tabs(depth)) + ("}" + suffix))))
  {
    var nl, m, w := When(fmt, "\n"), PrintMembers(ms, depth + 1, fmt), When(fmt, Tabs(depth));
    Associative("{" + nl + m + w, "}", suffix);
    Associative("{" + nl + m, w, "}" + suffix);
    Associative("{" + nl, m, w + ("}" + suffix));
    Associative("{", nl, m + (w + ("}" + suffix)));
  }

  lemma MembersFirst(ms: seq<Member>, depth: nat, fmt: bool, close: string)
    requires ms != []
    ensures var t := Skip(PrintMembers(ms, depth, fmt) + close); t != [] && t[0] == '"' && Skip(t) == t
  {
    var last := |ms| == 1;
    var more := if last then close else PrintMembers(ms[1..], depth, fmt) + close;
    MembersText(ms, depth, fmt, close);
    MemberText(ms[0], last, depth, fmt, more);
    var t := Quoted(ms[0].name) + (":" + (When(fmt, "\t") +
               (Print(ms[0].value, depth, fmt) + (MemberEnd(last, fmt) + more))));
    SkipTabs(depth, t);
    assert !fmt ==> When(fmt, Tabs(depth)) + t == t;
    SkipStays(t);
  }

  // Consequences

  /** Parsing a printed document gives the tree back, with or without insisting on the end of the text. */
  lemma DocumentRoundTrip(v: Value, fmt: bool, requireEnd: bool)
    requires Storable(v)
    ensures ParseDocument(Print(v, 0, fmt), requireEnd) == Ok(AsParsed(v), "")
  {
    PrintStartsToken(v, 0, fmt);
    RoundTrip(v, 0, fmt, "");
    assert Print(v, 0, fmt) + "" == Print(v, 0, fmt);
    SkipStays(Print(v, 0, fmt));
  }

  predicate AllZero(v: Value) {
    match v
    case Number(n, _) => n == 0
    case Array(items) => forall i :: 0 <= i < |items| ==> AllZero(items[i])
    case Object(ms) => forall i :: 0 <= i < |ms| ==> AllZero(ms[i].value)
    case _ => true
  }

  /** A tree with every number replaced by zero. */
  function Zeroed(v: Value): Value
    decreases v, 1
  {
    match v
    case Number(_, _) => Number(0, 0)
    case Array(items) => Array(ZeroedItems(items))
    case Object(ms) => Object(ZeroedMembers(ms))
    case _ => v
  }

  function ZeroedItems(items: seq<Value>): (r: seq<Value>)
    ensures |r| == |items|
    decreases items, 0
  {
    if items == [] then [] else [Zeroed(items[0])] + ZeroedItems(items[1..])
  }

  function ZeroedMembers(ms: seq<Member>): (r: seq<Member>)
    ensures |r| == |ms|
    decreases ms, 0
  {
    if ms == [] then [] else [Member(ms[0].name, Zeroed(ms[0].value))] + ZeroedMembers(ms[1..])
  }

  /** A zeroed tree is unchanged by the round trip. */
  lemma {:induction false} ZeroedParses(v: Value)
    requires Printable(v)
    ensures Storable(Zeroed(v)) && AsParsed(Zeroed(v)) == Zeroed(v)
    decreases v, 1
  {
    match v
    case Array(items) => ZeroedItemsParse(items);
    case Object(ms) => ZeroedMembersParse(ms);
    case _ =>
  }

  lemma {:induction false} ZeroedItemsParse(items: seq<Value>)
    requires forall i :: 0 <= i < |items| ==> Printable(items[i])
    ensures var zs := ZeroedItems(items);
            (forall i :: 0 <= i < |zs| ==> Storable(zs[i])) && AsParsedItems(zs) == zs
    decreases items, 0
  {
    if items != [] {
      ZeroedParses(items[0]);
      ZeroedItemsParse(items[1..]);
      assert ZeroedItems(items)[1..] == ZeroedItems(items[1..]);
    }
  }

  lemma {:induction false} ZeroedMembersParse(ms: seq<Member>)
    requires forall i :: 0 <= i < |ms| ==> NulFree(ms[i].name) && Printable(ms[i].value)
    ensures var zs := ZeroedMembers(ms);
            (forall i :: 0 <= i < |zs| ==> NulFree(zs[i].name) && Storable(zs[i].value)) && AsParsedMembers(zs) == zs
    decreases ms, 0
  {
    if ms != [] {
      ZeroedParses(ms[0].value);
      ZeroedMembersParse(ms[1..]);
      assert ZeroedMembers(ms)[1..] == ZeroedMembers(ms[1..]);
    }
  }

  /** The printer cannot tell a parsed tree from one whose numbers are all zero. */
  lemma {:induction false} ParsedPrintsAsZeroed(v: Value, depth: nat, fmt: bool)
    ensures Print(AsParsed(v), depth, fmt) == Print(Zeroed(v), depth, fmt)
    ensures AsParsed(v) == Zeroed(v) <==> AllZero(v)
    decreases v, 1
  {
    match v
    case Array(items) => ItemsPrintAsZeroed(items, depth + 1, fmt);
    case Object(ms) => MembersPrintAsZeroed(ms, depth + 1, fmt);
    case _ =>
  }

  lemma {:induction false} ItemsPrintAsZeroed(items: seq<Value>, depth: nat, fmt: bool)
    ensures var ps, zs := AsParsedItems(items), ZeroedItems(items);
            && |ps| == |items|
            && (items != [] ==> PrintItems(ps, depth, fmt) == PrintItems(zs, depth, fmt))
            && (ps == zs <==> forall i :: 0 <= i < |items| ==> AllZero(items[i]))
    decreases items, 0
  {
    if items != [] {
      var ps, zs := AsParsedItems(items), ZeroedItems(items);
      ParsedPrintsAsZeroed(items[0], depth, fmt);
      ItemsPrintAsZeroed(items[1..], depth, fmt);
      assert ps[1..] == AsParsedItems(items[1..]) && zs[1..] == ZeroedItems(items[1..]);
      assert ps == zs <==> ps[0] == zs[0] && ps[1..] == zs[1..];
      assert (forall i :: 0 <= i < |items| ==> AllZero(items[i])) <==>
             AllZero(items[0]) && forall i :: 0 <= i < |items[1..]| ==> AllZero(items[1..][i]);
    }
  }

  lemma {:induction false} MembersPrintAsZeroed(ms: seq<Member>, depth: nat, fmt: bool)
    ensures var ps, zs := AsParsedMembers(ms), ZeroedMembers(ms);
            && |ps| == |ms|
            && (ms != [] ==> PrintMembers(ps, depth, fmt) == PrintMembers(zs, depth, fmt))
            && (ps == zs <==> forall i :: 0 <= i < |ms| ==> AllZero(ms[i].value))
    decreases ms, 0
  {
    if ms != [] {
      var ps, zs := AsParsedMembers(ms), ZeroedMembers(ms);
      ParsedPrintsAsZeroed(ms[0].value, depth, fmt);
      MembersPrintAsZeroed(ms[1..], depth, fmt);
      assert ps[1..] == AsParsedMembers(ms[1..]) && zs[1..] == ZeroedMembers(ms[1..]);
      assert ps == zs <==> ps[0] == zs[0] && ps[1..] == zs[1..];
      assert (forall i :: 0 <= i < |ms| ==> AllZero(ms[i].value)) <==>
             AllZero(ms[0].value) && forall i :: 0 <= i < |ms[1..]| ==> AllZero(ms[1..][i].value);
    }
  }

  /** Printing a parsed tree again gives the text it was parsed from if and only if all its numbers are
      zero: the integer build of the parser fills only the field the printer does not trust. */
  lemma ReprintIff(v: Value, depth: nat, fmt: bool)
    requires Storable(v)
    ensures Print(AsParsed(v), depth, fmt) == Print(v, depth, fmt) <==> AllZero(v)
  {
    ParsedPrintsAsZeroed(v, depth, fmt);
    RoundTrip(v, depth, fmt, "");
    ZeroedParses(v);
    RoundTrip(Zeroed(v), depth, fmt, "");
    if AllZero(v) {
      ZeroedIsSame(v);
    }
  }

  lemma {:induction false} ZeroedIsSame(v: Value)
    requires Consistent(v) && AllZero(v)
    ensures Zeroed(v) == v
    decreases v, 1
  {
    match v
    case Array(items) => ZeroedItemsSame(items);
    case Object(ms) => ZeroedMembersSame(ms);
    case _ =>
  }

  lemma {:induction false} ZeroedItemsSame(items: seq<Value>)
    requires forall i :: 0 <= i < |items| ==> Consistent(items[i]) && AllZero(items[i])
    ensures ZeroedItems(items) == items
    decreases items, 0
  {
    if items != [] {
      ZeroedIsSame(items[0]);
      ZeroedItemsSame(items[1..]);
    }
  }

  lemma {:induction false} ZeroedMembersSame(ms: seq<Member>)
    requires forall i :: 0 <= i < |ms| ==> Consistent(ms[i].value) && AllZero(ms[i].value)
    ensures ZeroedMembers(ms) == ms
    decreases ms, 0
  {
    if ms != [] {
      ZeroedIsSame(ms[0].value);
      ZeroedMembersSame(ms[1..]);
    }
  }
}
