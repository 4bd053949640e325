/** String literals as section 7 of RFC 8259 allows them, and the UTF-8 (section 3 of RFC 3629) that
    `parse_string` makes of their escapes. */
module JsonUnicode {
  import opened Common
  import opened Decimal
  import opened JsonLiteral
  import opened JsonText
  import opened JsonRoundTrip

  /** Unicode scalar values except U+0000, which cannot be part of a C string. */
  predicate IsScalar(c: nat) { 0 < c < 0xD800 || 0xE000 <= c < 0x110000 }

  const LOWER: string := "0123456789abcdef"
  const UPPER: string := "0123456789ABCDEF"

  /** The digit of value `d`, in either case. */
  predicate IsDigitOf(c: char, d: nat)
    requires d < 16
  {
    c == LOWER[d] || c == UPPER[d]
  }

  /** Four hexadecimal digits that spell a UTF-16 unit, the one of greatest weight first. */
  predicate Spells(h: string, u: nat) {
    && |h| == 4 && u < 0x10000
    && IsDigitOf(h[0], u / 4096) && IsDigitOf(h[1], u / 256 % 16) && IsDigitOf(h[2], u / 16 % 16) && IsDigitOf(h[3], u % 16)
  }

  lemma DigitOfValue(c: char, d: nat)
    requires d < 16 && IsDigitOf(c, d)
    ensures IsHex(c) && HexValue(c) == d
  {}

  lemma ValueOfDigit(c: char)
    requires IsHex(c)
    ensures IsDigitOf(c, HexValue(c))
  {}

  /** Every spelling of a unit is read as that unit. */
  lemma SpellsHex4(h: string, u: nat)
    requires Spells(h, u)
    ensures Hex4(h) == u && IsHex(h[0]) && IsHex(h[1]) && IsHex(h[2]) && IsHex(h[3])
  {
    DigitOfValue(h[0], u / 4096);
    DigitOfValue(h[1], u / 256 % 16);
    DigitOfValue(h[2], u / 16 % 16);
    DigitOfValue(h[3], u % 16);
    HexSum(u);
    Hex4Digits(h);
  }

  lemma HexParts(a: nat, b: nat, c: nat, d: nat, u: nat)
    requires a < 16 && b < 16 && c < 16 && d < 16 && u == ((a * 16 + b) * 16 + c) * 16 + d
    ensures u < 0x10000 && u / 4096 == a && u / 256 % 16 == b && u / 16 % 16 == c && u % 16 == d
  {}

  /** Whatever the parser reads as four digits spells the unit it reads. */
  lemma Hex4Spells(h: string)
    requires |h| == 4 && IsHex(h[0]) && IsHex(h[1]) && IsHex(h[2]) && IsHex(h[3])
    ensures Spells(h, Hex4(h))
  {
    Hex4Digits(h);
    HexParts(HexValue(h[0]), HexValue(h[1]), HexValue(h[2]), HexValue(h[3]), Hex4(h));
    ValueOfDigit(h[0]);
    ValueOfDigit(h[1]);
    ValueOfDigit(h[2]);
    ValueOfDigit(h[3]);
  }

  function Unit(h: string): (s: string)
    ensures |s| == 2 + |h|
  {
    "\\u" + h
  }

  function HighUnit(c: nat): nat { if c < 0x10000 then c else 0xD800 + (c - 0x10000) / 0x400 }

  function LowUnit(c: nat): nat
    requires c >= 0x10000
  {
    0xDC00 + (c - 0x10000) % 0x400
  }

  /** The two-character escapes. */
  const SHORT: map<char, char> :=
    map['"' := '"', '\\' := '\\', '/' := '/', 'b' := '\U{0008}', 'f' := '\U{000C}', 'n' := '\n', 'r' := '\r', 't' := '\t']

  /** What a literal consists of; a scalar value comes with the digits of its one or two units. */
  datatype Piece = Raw(c: char) | Short(e: char) | Scalar(value: nat, high: string, low: string)

  predicate WellFormed(p: Piece) {
    match p
    case Raw(c) => c != '\0' && c != '"' && c != '\\'
    case Short(e) => e in SHORT
    case Scalar(c, high, low) =>
      IsScalar(c) && Spells(high, HighUnit(c)) && if c < 0x10000 then low == "" else Spells(low, LowUnit(c))
  }

  function Text(p: Piece): string {
    match p
    case Raw(c) => [c]
    case Short(e) => ['\\', e]
    case Scalar(c, high, low) => if c < 0x10000 then Unit(high) else Unit(high) + Unit(low)
  }

  function Bytes(p: Piece): string
    requires WellFormed(p)
  {
    match p
    case Raw(c) => [c]
    case Short(e) => [SHORT[e]]
    case Scalar(c, _, _) => Transcode(c)
  }

  function TextAll(ps: seq<Piece>): string {
    if ps == [] then [] else Text(ps[0]) + TextAll(ps[1..])
  }

  function BytesAll(ps: seq<Piece>): string
    requires forall i :: 0 <= i < |ps| ==> WellFormed(ps[i])
  {
    if ps == [] then [] else Bytes(ps[0]) + BytesAll(ps[1..])
  }

  /** Every scalar value can be spelled. */
  lemma SpellingExists(c: nat)
    requires IsScalar(c)
    ensures exists p: Piece :: WellFormed(p) && p.Scalar? && p.value == c
  {
    var high := Hexadecimal(HighUnit(c));
    var p := Scalar(c, high, if c < 0x10000 then "" else Hexadecimal(LowUnit(c)));
    assert WellFormed(p);
  }

  function Hexadecimal(u: nat): (h: string)
    requires u < 0x10000
    ensures Spells(h, u)
  {
    [LOWER[u / 4096], UPPER[u / 256 % 16], LOWER[u / 16 % 16], UPPER[u % 16]]
  }

  lemma HexSum(u: nat)
    requires u < 0x10000
    ensures ((u / 4096 * 16 + u / 256 % 16) * 16 + u / 16 % 16) * 16 + u % 16 == u
  {}

  // One escape

  lemma UnitValue(h: string, u: nat, t: string)
    requires Spells(h, u)
    ensures Hex4(Drop(Unit(h) + t, 2)) == u
    ensures Drop(Unit(h) + t, 6) == t
    ensures At(Unit(h) + t, 0) == '\\' && At(Unit(h) + t, 1) == 'u'
  {
    var q := Drop(Unit(h) + t, 2);
    assert q[0] == h[0] && q[1] == h[1] && q[2] == h[2] && q[3] == h[3];
    SpellsHex4(h, u);
    Hex4Digits(h);
    Hex4Digits(q);
  }

  lemma DropDrop(s: string, a: nat, b: nat)
    ensures Drop(Drop(s, a), b) == Drop(s, a + b)
    ensures At(Drop(s, a), b) == At(s, a + b)
  {}

  lemma DecodeUnit(c: nat, h: string, t: string)
    requires IsScalar(c) && c < 0x10000 && Spells(h, c)
    ensures DecodeBody(Unit(h) + t) == var b := DecodeBody(t); Body(Transcode(c) + b.bytes, b.rest)
  {
    var s := Unit(h) + t;
    UnitValue(h, c, t);
    DropDrop(s, 1, 0);
    DropDrop(s, 1, 1);
    assert Unescape(Drop(s, 1)) == Unescaped(Transcode(c), 5);
    DecodeDropped(s, Transcode(c), 5);
  }

  lemma UnescapePair(s: string, c: nat)
    requires IsScalar(c) && c >= 0x10000 && At(s, 0) == 'u' && At(s, 5) == '\\' && At(s, 6) == 'u'
    requires Hex4(Drop(s, 1)) == HighUnit(c) && Hex4(Drop(s, 7)) == LowUnit(c)
    ensures Unescape(s) == Unescaped(Transcode(c), 11)
  {
    SurrogateSum(c);
  }

  lemma PairLayout(h: string, u: string)
    requires |h| == 4
    ensures var s := Unit(h) + u;
            var e := Drop(s, 1);
            && At(e, 5) == At(u, 0) && At(e, 6) == At(u, 1)
            && Drop(e, 7) == Drop(u, 2) && Drop(s, 12) == Drop(u, 6)
  {
    var s := Unit(h) + u;
    assert Drop(s, 6) == u;
    DropDrop(s, 1, 5);
    DropDrop(s, 1, 6);
    DropDrop(s, 1, 7);
    DropDrop(s, 6, 0);
    DropDrop(s, 6, 1);
    DropDrop(s, 6, 2);
    DropDrop(s, 6, 6);
  }

  lemma DecodePair(c: nat, h: string, l: string, t: string)
    requires IsScalar(c) && c >= 0x10000 && Spells(h, HighUnit(c)) && Spells(l, LowUnit(c))
    ensures DecodeBody(Unit(h) + (Unit(l) + t)) == var b := DecodeBody(t); Body(Transcode(c) + b.bytes, b.rest)
  {
    var u := Unit(l) + t;
    var s := Unit(h) + u;
    UnitValue(h, HighUnit(c), u);
    UnitValue(l, LowUnit(c), t);
    PairLayout(h, u);
    DropDrop(s, 1, 0);
    DropDrop(s, 1, 1);
    UnescapePair(Drop(s, 1), c);
    DecodeDropped(s, Transcode(c), 11);
  }

  lemma DecodeDropped(s: string, bytes: string, used: nat)
    requires s != [] && s[0] == '\\' && Unescape(Drop(s, 1)) == Unescaped(bytes, used)
    ensures DecodeBody(s) == var b := DecodeBody(Drop(s, 1 + used)); Body(bytes + b.bytes, b.rest)
  {
    assert s[1..] == Drop(s, 1);
    if 1 + used <= |s| {
      DecodeEscape(s, Unescaped(bytes, used), s[1 + used..]);
    }
  }

  lemma SurrogateSum(c: nat)
    requires 0x10000 <= c < 0x110000
    ensures var hi, lo := HighUnit(c), LowUnit(c);
            && 0xD800 <= hi <= 0xDBFF && 0xDC00 <= lo <= 0xDFFF
            && 0x10000 + hi % 0x400 * 0x400 + lo % 0x400 == c
  {}

  lemma DecodeShortPiece(e: char, t: string)
    requires e in SHORT
    ensures DecodeBody(['\\', e] + t) == var b := DecodeBody(t); Body([SHORT[e]] + b.bytes, b.rest)
  {
    assert Unescape([e] + t) == Unescaped([SHORT[e]], 1);
    DecodeShort(e, SHORT[e], t);
  }

  lemma DecodePiece(p: Piece, t: string)
    requires WellFormed(p)
    ensures DecodeBody(Text(p) + t) == var b := DecodeBody(t); Body(Bytes(p) + b.bytes, b.rest)
  {
    match p
    case Raw(c) => DecodePlain(c, t);
    case Short(e) => DecodeShortPiece(e, t);
    case Scalar(c, high, low) =>
      if c < 0x10000 {
        DecodeUnit(c, high, t);
      } else {
        Associative(Unit(high), Unit(low), t);
        DecodePair(c, high, low, t);
      }
  }

  /** The decoding pass of `parse_string` on every well-formed literal. */
  lemma {:induction false} DecodePieces(ps: seq<Piece>, rest: string)
    requires forall i :: 0 <= i < |ps| ==> WellFormed(ps[i])
    ensures DecodeBody(TextAll(ps) + ("\"" + rest)) == Body(BytesAll(ps), rest)
  {
    var close := "\"" + rest;
    if ps == [] {
      assert TextAll(ps) + close == close && close[1..] == rest;
    } else {
      DecodePieces(ps[1..], rest);
      Associative(Text(ps[0]), TextAll(ps[1..]), close);
      DecodePiece(ps[0], TextAll(ps[1..]) + close);
    }
  }

  // Bounds

  lemma WholePiece(p: Piece, t: string)
    requires WellFormed(p) && WholeEscapes(t)
    ensures WholeEscapes(Text(p) + t)
  {
    match p
    case Raw(c) => assert ([c] + t)[1..] == t;
    case Short(e) => assert (['\\', e] + t)[2..] == t;
    case Scalar(c, high, low) =>
      if c < 0x10000 {
        WholeUnit(high, c, t);
      } else {
        Associative(Unit(high), Unit(low), t);
        WholeUnit(low, LowUnit(c), t);
        WholeUnit(high, HighUnit(c), Unit(low) + t);
      }
  }

  lemma WholeUnit(h: string, u: nat, t: string)
    requires Spells(h, u) && WholeEscapes(t)
    ensures WholeEscapes(Unit(h) + t)
  {
    assert Unit(h)[2..] == h;
    WholeControl(Unit(h), t);
  }

  lemma {:induction false} WholePieces(ps: seq<Piece>, rest: string)
    requires forall i :: 0 <= i < |ps| ==> WellFormed(ps[i])
    ensures WholeEscapes(TextAll(ps) + ("\"" + rest))
  {
    if ps != [] {
      WholePieces(ps[1..], rest);
      Associative(Text(ps[0]), TextAll(ps[1..]), "\"" + rest);
      WholePiece(ps[0], TextAll(ps[1..]) + ("\"" + rest));
    }
  }

  /** `parse_string` reads every well-formed literal inside its bounds, and the first pass never undercounts the
      bytes the second one writes. */
  lemma CountSuffices(ps: seq<Piece>, rest: string)
    requires forall i :: 0 <= i < |ps| ==> WellFormed(ps[i])
    ensures CountBody(TextAll(ps) + ("\"" + rest)) >= |BytesAll(ps)|
    ensures ParseLiteral(TextAll(ps) + ("\"" + rest)) == Ok(BytesAll(ps), rest)
  {
    DecodePieces(ps, rest);
    WholePieces(ps, rest);
    WholeEscapesStay(TextAll(ps) + ("\"" + rest));
  }

  // UTF-8

  predicate IsContinuation(c: char) { 0x80 <= c as int < 0xC0 }

  /** The scalar value at the start of UTF-8 text and the number of its bytes, by the table of section 3 of
      RFC 3629; longer forms than necessary and surrogates are no UTF-8. */
  function FirstScalar(b: string): Option<(nat, nat)> {
    var b0 := At(b, 0) as int;
    var b1, b2, b3 := At(b, 1), At(b, 2), At(b, 3);
    if b == [] then None
    else if b0 < 0x80 then Some((b0, 1))
    else if 0xC2 <= b0 < 0xE0 && IsContinuation(b1) then Some(((b0 - 0xC0) * 64 + (b1 as int - 0x80), 2))
    else if 0xE0 <= b0 < 0xF0 && IsContinuation(b1) && IsContinuation(b2) then
      var c := ((b0 - 0xE0) * 64 + (b1 as int - 0x80)) * 64 + (b2 as int - 0x80);
      if c < 0x800 || 0xD800 <= c < 0xE000 then None else Some((c, 3))
    else if 0xF0 <= b0 < 0xF8 && IsContinuation(b1) && IsContinuation(b2) && IsContinuation(b3) then
      var c := (((b0 - 0xF0) * 64 + (b1 as int - 0x80)) * 64 + (b2 as int - 0x80)) * 64 + (b3 as int - 0x80);
      if c < 0x10000 || 0x110000 <= c then None else Some((c, 4))
    else None
  }

  function FromUtf8(b: string): Option<seq<nat>>
    decreases |b|
  {
    if b == [] then Some([])
    else
      var first := FirstScalar(b);
      if first == None then None
      else
        var rest := FromUtf8(Drop(b, if first.value.1 == 0 then 1 else first.value.1));
        if rest == None then None else Some([first.value.0] + rest.value)
  }

  lemma TranscodeIsUtf8(c: nat, t: string)
    requires IsScalar(c)
    ensures FirstScalar(Transcode(c) + t) == Some((c, |Transcode(c)|))
    ensures Drop(Transcode(c) + t, |Transcode(c)|) == t
  {}

  lemma FromUtf8Step(c: nat, t: string)
    requires IsScalar(c) && FromUtf8(t).Some?
    ensures FromUtf8(Transcode(c) + t) == Some([c] + FromUtf8(t).value)
  {
    TranscodeIsUtf8(c, t);
  }

  /** The scalar values of a literal written in escapes only. */
  function Values(ps: seq<Piece>): seq<nat>
    requires forall i :: 0 <= i < |ps| ==> ps[i].Scalar?
  {
    if ps == [] then [] else [ps[0].value] + Values(ps[1..])
  }

  /** Every sequence of scalar values, however spelled in escapes and surrogate pairs, becomes its UTF-8. */
  lemma {:induction false} EscapesBecomeUtf8(ps: seq<Piece>, rest: string)
    requires forall i :: 0 <= i < |ps| ==> ps[i].Scalar? && WellFormed(ps[i])
    ensures var b := ParseLiteral(TextAll(ps) + ("\"" + rest));
            b.Ok? && FromUtf8(b.value) == Some(Values(ps)) && b.rest == rest
  {
    CountSuffices(ps, rest);
    BytesAreUtf8(ps);
  }

  lemma {:induction false} BytesAreUtf8(ps: seq<Piece>)
    requires forall i :: 0 <= i < |ps| ==> ps[i].Scalar? && WellFormed(ps[i])
    ensures FromUtf8(BytesAll(ps)) == Some(Values(ps))
  {
    if ps != [] {
      BytesAreUtf8(ps[1..]);
      FromUtf8Step(ps[0].value, BytesAll(ps[1..]));
    }
  }
}
