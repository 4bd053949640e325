/** Characters of a JSON text, and what `parse_string` makes of a string literal. C strings are `string`s; the
    NUL that ends one is not part of it, and reading at the end yields NUL. */
module JsonLiteral {
  import opened Common
  import opened Decimal

  predicate NulFree(s: string) { '\0' !in s }

  /** The outcome of parsing. `Overrun` stands for what C leaves undefined: an access behind the end of the
      text, or a store behind the end of the block that was allocated. */
  datatype Parsed<T> = Fail | Overrun | Ok(value: T, rest: string)

  /** A failure passed on to the caller. */
  function Because<T, U>(r: Parsed<T>): Parsed<U>
    requires !r.Ok?
  {
    if r.Fail? then Fail else Overrun
  }

  function At(s: string, i: nat): char { if i < |s| then s[i] else '\0' }

  function Drop(s: string, n: nat): (r: string)
    ensures |r| == if n <= |s| then |s| - n else 0
  {
    if n <= |s| then s[n..] else []
  }

  predicate IsHex(c: char) { IsDigit(c) || 'A' <= c <= 'F' || 'a' <= c <= 'f' }

  function HexValue(c: char): (h: nat)
    requires IsHex(c)
    ensures h < 16
  {
    if IsDigit(c) then c as int - '0' as int
    else if 'A' <= c <= 'F' then 10 + c as int - 'A' as int
    else 10 + c as int - 'a' as int
  }

  /** The value of the first `k` characters as hexadecimal digits, or -1. */
  function HexPrefix(s: string, k: nat): int {
    if k == 0 then 0
    else
      var h := HexPrefix(s, k - 1);
      if h < 0 || !IsHex(At(s, k - 1)) then -1 else 16 * h + HexValue(At(s, k - 1))
  }

  /** `parse_hex4`: zero when a character is no hexadecimal digit. */
  function Hex4(s: string): (h: nat)
    ensures h < 0x10000
  {
    HexPrefixBound(s);
    var h := HexPrefix(s, 4);
    if h < 0 then 0 else h
  }

  lemma HexPrefixBound(s: string)
    ensures HexPrefix(s, 4) < 0x10000
  {
    assert HexPrefix(s, 1) < 16 && HexPrefix(s, 2) < 256 && HexPrefix(s, 3) < 4096;
  }

  lemma Hex4Digits(s: string)
    ensures Hex4(s) ==
            if IsHex(At(s, 0)) && IsHex(At(s, 1)) && IsHex(At(s, 2)) && IsHex(At(s, 3)) then
              ((HexValue(At(s, 0)) * 16 + HexValue(At(s, 1))) * 16 + HexValue(At(s, 2))) * 16 + HexValue(At(s, 3))
            else 0
  {
    assert HexPrefix(s, 1) == if IsHex(At(s, 0)) then HexValue(At(s, 0)) else -1;
    assert HexPrefix(s, 2) == if HexPrefix(s, 1) >= 0 && IsHex(At(s, 1)) then HexPrefix(s, 1) * 16 + HexValue(At(s, 1)) else -1;
    assert HexPrefix(s, 3) == if HexPrefix(s, 2) >= 0 && IsHex(At(s, 2)) then HexPrefix(s, 2) * 16 + HexValue(At(s, 2)) else -1;
  }

  /** The bytes `parse_string` writes for a code point, last byte first as the code falls through. */
  function Transcode(uc: nat): (bytes: string)
    requires uc < 0x110000
    ensures 1 <= |bytes| <= 4
  {
    if uc < 0x80 then [uc as char]
    else if uc < 0x800 then [(0xC0 + uc / 64) as char, (0x80 + uc % 64) as char]
    else if uc < 0x10000 then
      [(0xE0 + uc / 64 / 64) as char, (0x80 + uc / 64 % 64) as char, (0x80 + uc % 64) as char]
    else
      [(0xF0 + uc / 64 / 64 / 64) as char, (0x80 + uc / 64 / 64 % 64) as char,
       (0x80 + uc / 64 % 64) as char, (0x80 + uc % 64) as char]
  }

  /** What one escape yields; `s` starts after the backslash, `used` counts from there. */
  datatype Unescaped = Unescaped(bytes: string, used: nat)

  function Unescape(s: string): (u: Unescaped)
    ensures u.used >= 1
  {
    var c := At(s, 0);
    if c == 'b' then Unescaped("\U{0008}", 1)
    else if c == 'f' then Unescaped("\U{000C}", 1)
    else if c == 'n' then Unescaped("\n", 1)
    else if c == 'r' then Unescaped("\r", 1)
    else if c == 't' then Unescaped("\t", 1)
    else if c == 'u' then
      var uc := Hex4(Drop(s, 1));
      if 0xDC00 <= uc <= 0xDFFF || uc == 0 then Unescaped("", 5)
      else if 0xD800 <= uc <= 0xDBFF then
        if At(s, 5) != '\\' || At(s, 6) != 'u' then Unescaped("", 5)
        else
          var uc2 := Hex4(Drop(s, 7));
          if uc2 < 0xDC00 || uc2 > 0xDFFF then Unescaped("", 11)
          else Unescaped(Transcode(0x10000 + uc % 0x400 * 0x400 + uc2 % 0x400), 11)
      else Unescaped(Transcode(uc), 5)
    else Unescaped([c], 1)
  }

  datatype Body = Body(bytes: string, rest: string)

  /** What the decoding pass has written, in front of what it will write. */
  function Prepend(bytes: string, b: Body): Body { Body(bytes + b.bytes, b.rest) }

  /** The characters of a string literal after its opening quote. */
  function DecodeBody(s: string): (b: Body)
    ensures |b.rest| <= |s|
    decreases |s|
  {
    if s == [] || s[0] == '\0' then Body("", s)
    else if s[0] == '"' then Body("", s[1..])
    else if s[0] != '\\' then Prepend([s[0]], DecodeBody(s[1..]))
    else
      var u := Unescape(s[1..]);
      Prepend(u.bytes, DecodeBody(Drop(s, 1 + u.used)))
  }

  /** The counting pass of `parse_string`: an escape counts once, its tail like other characters. */
  function CountBody(s: string): nat
    decreases |s|
  {
    if s == [] || s[0] == '\0' || s[0] == '"' then 0
    else 1 + CountBody(Drop(s, if s[0] == '\\' then 2 else 1))
  }

  /** The decoding pass does not step over the end of the text. */
  predicate DecodeStays(s: string)
    decreases |s|
  {
    if s == [] || s[0] == '\0' || s[0] == '"' then true
    else if s[0] != '\\' then DecodeStays(s[1..])
    else
      var k := 1 + Unescape(s[1..]).used;
      k <= |s| && NulFree(s[..k]) && DecodeStays(s[k..])
  }

  /** The counting pass does not step over the end of the text. */
  predicate CountStays(s: string)
    decreases |s|
  {
    if s == [] || s[0] == '\0' || s[0] == '"' then true
    else if s[0] != '\\' then CountStays(s[1..])
    else |s| >= 2 && s[1] != '\0' && CountStays(s[2..])
  }

  /** Both passes stay inside the text, and what the second writes fits the block the first one counted. */
  predicate InBounds(s: string) {
    DecodeStays(s) && CountStays(s) && |DecodeBody(s).bytes| <= CountBody(s)
  }

  /** `parse_string` behind the opening quote. */
  function ParseLiteral(s: string): (r: Parsed<string>)
    ensures r.Ok? ==> |r.rest| <= |s|
  {
    if InBounds(s) then Ok(DecodeBody(s).bytes, DecodeBody(s).rest) else Overrun
  }

  // When a literal stays in bounds

  predicate FourPlain(s: string) {
    |s| >= 4 && forall i :: 0 <= i < 4 ==> s[i] != '\0' && s[i] != '"' && s[i] != '\\'
  }

  /** Every backslash is followed by a character, and every `\u` by four that are no quote, backslash or end. */
  predicate WholeEscapes(s: string)
    decreases |s|
  {
    if s == [] || s[0] == '\0' || s[0] == '"' then true
    else if s[0] != '\\' then WholeEscapes(s[1..])
    else if At(s, 1) == 'u' then FourPlain(s[2..]) && WholeEscapes(s[6..])
    else At(s, 1) != '\0' && WholeEscapes(s[2..])
  }

  lemma CountOne(s: string)
    requires s != [] && s[0] != '\0' && s[0] != '"' && s[0] != '\\'
    ensures CountBody(s) == 1 + CountBody(s[1..]) && (CountStays(s[1..]) ==> CountStays(s))
  {}

  /** A whole unit escape counts five. */
  lemma CountUnit(s: string)
    requires |s| >= 2 && s[0] == '\\' && s[1] == 'u' && FourPlain(s[2..])
    ensures CountBody(s) == 5 + CountBody(s[6..]) && (CountStays(s[6..]) ==> CountStays(s))
  {
    var t := s[2..];
    assert t[1..][1..] == t[2..] && t[2..][1..] == t[3..] && t[3..][1..] == t[4..] && t[4..] == s[6..];
    CountOne(t);
    CountOne(t[1..]);
    CountOne(t[2..]);
    CountOne(t[3..]);
  }

  lemma UnescapeUnit(s: string)
    requires At(s, 0) == 'u'
    ensures var u := Unescape(s);
            if u.used == 5 then |u.bytes| <= 3
            else u.used == 11 && |u.bytes| <= 4 && At(s, 5) == '\\' && At(s, 6) == 'u'
  {}

  lemma UnescapeShort(s: string)
    requires At(s, 0) != 'u'
    ensures Unescape(s).used == 1 && |Unescape(s).bytes| == 1
  {}

  lemma DecodeEscape(s: string, u: Unescaped, t: string)
    requires s != [] && s[0] == '\\' && u == Unescape(s[1..]) && 1 + u.used <= |s| && t == s[1 + u.used..]
    ensures DecodeBody(s) == Prepend(u.bytes, DecodeBody(t))
  {}

  lemma DecodeStaysEscape(s: string, u: Unescaped, t: string)
    requires s != [] && s[0] == '\\' && u == Unescape(s[1..]) && 1 + u.used <= |s| && t == s[1 + u.used..]
    ensures DecodeStays(s) <==> NulFree(s[..1 + u.used]) && DecodeStays(t)
  {}

  /** One escape that writes at most what it counts. */
  lemma EscapeStays(s: string, u: Unescaped, counted: nat)
    requires s != [] && s[0] == '\\' && u == Unescape(s[1..])
    requires 1 + u.used <= |s| && NulFree(s[..1 + u.used]) && InBounds(s[1 + u.used..])
    requires CountStays(s) && CountBody(s) == counted + CountBody(s[1 + u.used..]) && |u.bytes| <= counted
    ensures InBounds(s)
  {
    DecodeEscape(s, u, s[1 + u.used..]);
    DecodeStaysEscape(s, u, s[1 + u.used..]);
  }

  lemma FourPlainNulFree(s: string)
    requires |s| >= 2 && s[0] == '\\' && s[1] == 'u' && FourPlain(s[2..])
    ensures |s| >= 6 && NulFree(s[..6])
  {
    forall i | 0 <= i < 6 ensures s[i] != '\0' {
      if i >= 2 {
        assert s[i] == s[2..][i - 2];
      }
    }
  }

  /** Texts with whole escapes, well-formed or not, are parsed inside their bounds. */
  lemma {:induction false} WholeEscapesStay(s: string)
    requires WholeEscapes(s)
    ensures InBounds(s)
    decreases |s|
  {
    if s == [] || s[0] == '\0' || s[0] == '"' {
    } else if s[0] != '\\' {
      WholeEscapesStay(s[1..]);
    } else if At(s, 1) != 'u' {
      WholeEscapesStay(s[2..]);
      assert At(s[1..], 0) == At(s, 1);
      UnescapeShort(s[1..]);
      EscapeStays(s, Unescape(s[1..]), 1);
    } else {
      UnitStays(s);
    }
  }

  lemma {:induction false} UnitStays(s: string)
    requires |s| >= 2 && s[0] == '\\' && s[1] == 'u' && WholeEscapes(s)
    ensures InBounds(s)
    decreases |s|, 0
  {
    var u, t := Unescape(s[1..]), s[6..];
    FourPlainNulFree(s);
    CountUnit(s);
    UnescapeUnit(s[1..]);
    if u.used == 5 {
      WholeEscapesStay(t);
      EscapeStays(s, u, 5);
    } else {
      assert t[0] == At(s[1..], 5) && t[1] == At(s[1..], 6);
      FourPlainNulFree(t);
      CountUnit(t);
      assert t[6..] == s[12..] && s[..12] == s[..6] + t[..6];
      WholeEscapesStay(s[12..]);
      EscapeStays(s, u, 10);
    }
  }

  lemma DecodePlain(c: char, t: string)
    requires c != '\0' && c != '"' && c != '\\'
    ensures DecodeBody([c] + t) == Prepend([c], DecodeBody(t)) && (DecodeStays(t) ==> DecodeStays([c] + t))
  {
    assert ([c] + t)[1..] == t;
  }

  lemma PrependTwice(a: string, b: string, c: Body)
    ensures Prepend(a, Prepend(b, c)) == Prepend(a + b, c)
  {
    Associative(a, b, c.bytes);
  }

  predicate AllPlain(p: string) { forall i :: 0 <= i < |p| ==> p[i] != '\0' && p[i] != '"' && p[i] != '\\' }

  lemma {:induction false} DecodePlainRun(p: string, t: string, b: Body)
    requires AllPlain(p) && b == DecodeBody(t) && DecodeStays(t)
    ensures DecodeBody(p + t) == Prepend(p, b) && DecodeStays(p + t)
  {
    if p == [] {
      assert p + t == t;
    } else {
      var c, q := p[0], p[1..];
      DecodePlainRun(q, t, b);
      assert p == [c] + q;
      Associative([c], q, t);
      DecodePlain(c, q + t);
      PrependTwice([c], q, b);
    }
  }

  lemma UnescapeBroken(s: string)
    requires At(s, 0) == 'u' && At(s, 1) == '"'
    ensures Unescape(s) == Unescaped("", 5)
  {
    assert At(Drop(s, 1), 0) == '"';
    Hex4Digits(Drop(s, 1));
  }

  lemma DecodeBroken(s: string)
    requires |s| >= 6 && s[0] == '\\' && s[1] == 'u' && s[2] == '"' && NulFree(s[..6])
    ensures DecodeBody(s) == Prepend("", DecodeBody(s[6..])) && (DecodeStays(s[6..]) ==> DecodeStays(s))
    ensures CountBody(s) == 1 && CountStays(s)
  {
    UnescapeBroken(s[1..]);
  }

  /** Texts that are not: with a quote inside a unit escape the counting pass stops there, while the decoding
      pass steps over it and writes all that follows into a block of two bytes. */
  lemma BrokenEscapeOverruns(w: string, p: string)
    requires |w| == 3 && NulFree(w) && AllPlain(p) && |p| >= 2
    ensures var s := "\\u\"" + w + (p + "\"");
            ParseLiteral(s) == Overrun && CountBody(s) == 1 && DecodeBody(s).bytes == p
  {
    var q, t := "\\u\"" + w, p + "\"";
    var s := q + t;
    assert s[..6] == q && s[6..] == t;
    DecodeBroken(s);
    var b := DecodeBody("\"");
    assert b == Body("", "");
    DecodePlainRun(p, "\"", b);
    assert p + "" == p && "" + p == p;
  }
}
