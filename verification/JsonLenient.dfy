/** String literals as cJSON accepts them, well-formed or not: what each part of one stands for. */
module JsonLenient {
  import opened Common
  import opened Decimal
  import opened JsonLiteral
  import opened JsonRoundTrip
  import opened JsonUnicode

  predicate IsHexDigit(c: char) { c in LOWER || c in UPPER }

  predicate AllHexDigits(h: string) { forall i :: 0 <= i < |h| ==> IsHexDigit(h[i]) }

  /** Besides the pieces of a well-formed literal: an escape of any other character stands for that character; a
      unit escape of zero, of a surrogate without its partner, or without four digits stands for nothing. */
  datatype Part =
    | Proper(piece: Piece)
    | Stray(e: char)
    | Void(h: string, unit: nat)
    | Garbled(h: string)
    | LoneHigh(h: string, unit: nat)
    | Mispaired(high: string, unit: nat, second: string)

  predicate IsLow(u: nat) { 0xDC00 <= u <= 0xDFFF }
  predicate IsHigh(u: nat) { 0xD800 <= u <= 0xDBFF }

  /** `after` is the text behind the part, as far as the literal goes. */
  ghost predicate Permitted(p: Part, after: string) {
    match p
    case Proper(piece) => WellFormed(piece)
    case Stray(e) => e != '\0' && e != 'u' && e !in SHORT
    case Void(h, u) => Spells(h, u) && (u == 0 || IsLow(u))
    case Garbled(h) => |h| == 4 && NulFree(h) && !AllHexDigits(h)
    case LoneHigh(h, u) => Spells(h, u) && IsHigh(u) && !(At(after, 0) == '\\' && At(after, 1) == 'u')
    case Mispaired(high, u, second) =>
      && Spells(high, u) && IsHigh(u) && |second| == 4 && NulFree(second)
      && forall low :: IsLow(low) ==> !Spells(second, low)
  }

  function PartText(p: Part): string {
    match p
    case Proper(piece) => Text(piece)
    case Stray(e) => ['\\', e]
    case Void(h, _) => Unit(h)
    case Garbled(h) => Unit(h)
    case LoneHigh(h, _) => Unit(h)
    case Mispaired(high, _, second) => Unit(high) + Unit(second)
  }

  function PartBytes(p: Part): string {
    match p
    case Proper(piece) => if WellFormed(piece) then Bytes(piece) else ""
    case Stray(e) => [e]
    case _ => ""
  }

  /** A high surrogate is alone if no unit escape comes next. */
  ghost predicate AllPermitted(ps: seq<Part>) {
    ps == [] || (Permitted(ps[0], if |ps| > 1 then PartText(ps[1]) else "") && AllPermitted(ps[1..]))
  }

  function PartsText(ps: seq<Part>): string {
    if ps == [] then "" else PartText(ps[0]) + PartsText(ps[1..])
  }

  function PartsBytes(ps: seq<Part>): string {
    if ps == [] then "" else PartBytes(ps[0]) + PartsBytes(ps[1..])
  }

  // The first part of a literal

  lemma HexDigitOf(c: char)
    ensures IsHex(c) <==> IsHexDigit(c)
  {
    if IsHex(c) {
      ValueOfDigit(c);
    } else if c in LOWER {
      var d :| 0 <= d < |LOWER| && LOWER[d] == c;
      DigitOfValue(c, d);
    } else if c in UPPER {
      var d :| 0 <= d < |UPPER| && UPPER[d] == c;
      DigitOfValue(c, d);
    }
  }

  lemma AllHexFour(h: string)
    requires |h| == 4
    ensures AllHexDigits(h) <==> IsHex(h[0]) && IsHex(h[1]) && IsHex(h[2]) && IsHex(h[3])
  {
    HexDigitOf(h[0]);
    HexDigitOf(h[1]);
    HexDigitOf(h[2]);
    HexDigitOf(h[3]);
    if IsHex(h[0]) && IsHex(h[1]) && IsHex(h[2]) && IsHex(h[3]) {
      forall i | 0 <= i < 4 ensures IsHexDigit(h[i]) {
        assert i == 0 || i == 1 || i == 2 || i == 3;
      }
    }
  }

  lemma Hex4Same(q: string, h: string)
    requires |q| >= 4 && h == q[..4]
    ensures Hex4(q) == Hex4(h)
  {
    Hex4Digits(q);
    Hex4Digits(h);
    assert At(q, 0) == At(h, 0) && At(q, 1) == At(h, 1) && At(q, 2) == At(h, 2) && At(q, 3) == At(h, 3);
  }

  lemma GarbledIsZero(h: string)
    requires |h| == 4 && !(IsHex(h[0]) && IsHex(h[1]) && IsHex(h[2]) && IsHex(h[3]))
    ensures Hex4(h) == 0
  {
    Hex4Digits(h);
    assert At(h, 0) == h[0] && At(h, 1) == h[1] && At(h, 2) == h[2] && At(h, 3) == h[3];
  }

  /** Four characters read as a unit. */
  lemma UnitRead(q: string, h: string)
    requires |q| >= 4 && h == q[..4]
    ensures Hex4(q) == Hex4(h)
    ensures if AllHexDigits(h) then Spells(h, Hex4(h)) else Hex4(h) == 0
  {
    Hex4Same(q, h);
    AllHexFour(h);
    if AllHexDigits(h) {
      Hex4Spells(h);
    } else {
      GarbledIsZero(h);
    }
  }

  lemma NoLowSpelled(h: string)
    requires |h| == 4 && !IsLow(Hex4(h))
    ensures forall low :: IsLow(low) ==> !Spells(h, low)
  {
    forall low | IsLow(low) ensures !Spells(h, low) {
      if Spells(h, low) {
        SpellsHex4(h, low);
      }
    }
  }

  /** What a part does to the decoding. */
  ghost predicate Begins(s: string, p: Part, t: string) {
    && s == PartText(p) + t && Permitted(p, t) && |t| < |s|
    && DecodeBody(s) == Prepend(PartBytes(p), DecodeBody(t)) && DecodeStays(t)
  }

  lemma FirstPart(s: string) returns (p: Part, t: string)
    requires s != [] && s[0] != '\0' && s[0] != '"' && DecodeStays(s)
    ensures Begins(s, p, t)
  {
    if s[0] != '\\' {
      p, t := Proper(Raw(s[0])), s[1..];
      assert s == [s[0]] + t;
      assert Permitted(p, t);
    } else if At(s, 1) != 'u' {
      p, t := FirstEscape(s);
    } else {
      p, t := FirstUnit(s);
    }
  }

  lemma FirstEscape(s: string) returns (p: Part, t: string)
    requires s != [] && s[0] == '\\' && At(s, 1) != 'u' && DecodeStays(s)
    ensures Begins(s, p, t)
  {
    var e, u := At(s, 1), Unescape(s[1..]);
    assert At(s[1..], 0) == e;
    UnescapeShort(s[1..]);
    t := s[2..];
    assert NulFree(s[..2]) && s[..2][1] == e;
    assert s == ['\\', e] + t;
    DecodeEscape(s, u, t);
    DecodeStaysEscape(s, u, t);
    p := EscapePart(e);
    EscapePartBytes(s[1..], e, t);
  }

  function EscapePart(e: char): Part { if e in SHORT then Proper(Short(e)) else Stray(e) }

  lemma EscapePartBytes(s: string, e: char, t: string)
    requires e == At(s, 0) && e != 'u' && e != '\0'
    ensures var p := EscapePart(e);
            Permitted(p, t) && PartText(p) == ['\\', e] && PartBytes(p) == Unescape(s).bytes
  {
    assert Permitted(EscapePart(e), t);
  }

  lemma FirstUnit(s: string) returns (p: Part, t: string)
    requires s != [] && s[0] == '\\' && At(s, 1) == 'u' && DecodeStays(s)
    ensures Begins(s, p, t)
  {
    var u := Unescape(s[1..]);
    UnescapeUnit(s[1..]);
    t := s[1 + u.used..];
    DecodeEscape(s, u, t);
    DecodeStaysEscape(s, u, t);
    var h := s[2..6];
    UnitText(s);
    UnitRead(Drop(s[1..], 1), h);
    p := if u.used == 5 then OneUnit(s, h, t) else TwoUnits(s, h, t);
    OneUnitPart(s, h, u, t);
    if u.used == 11 {
      var a, b := Hex4(Drop(s[1..], 1)), Hex4(Drop(s[1..], 7));
      UnescapeTwo(s[1..], a, b, u);
      assert At(s[1..], 5) == s[6] && At(s[1..], 6) == s[7];
      TwoUnitsPart(s, h, a, b, t);
    }
  }

  function OneUnit(s: string, h: string, t: string): Part {
    var u := Hex4(h);
    if u == 0 && !AllHexDigits(h) then Garbled(h)
    else if u == 0 || IsLow(u) then Void(h, u)
    else if IsHigh(u) then LoneHigh(h, u)
    else Proper(Scalar(u, h, ""))
  }

  function TwoUnits(s: string, h: string, t: string): Part {
    var l := if |s| >= 12 then s[8..12] else "";
    var u, v := Hex4(h), Hex4(l);
    if IsLow(v) then Proper(Scalar(0x10000 + u % 0x400 * 0x400 + v % 0x400, h, l)) else Mispaired(h, u, l)
  }

  lemma UnitText(s: string)
    requires |s| >= 6 && s[0] == '\\' && s[1] == 'u'
    ensures s == Unit(s[2..6]) + s[6..] && |s[2..6]| == 4 && Drop(s[1..], 1)[..4] == s[2..6]
  {}

  lemma OneUnitPart(s: string, h: string, u: Unescaped, t: string)
    requires |s| >= 6 && s[0] == '\\' && s[1] == 'u' && h == s[2..6] && u == Unescape(s[1..])
    requires u.used == 5 ==> t == s[6..] && NulFree(s[..6])
    requires Hex4(Drop(s[1..], 1)) == Hex4(h) && if AllHexDigits(h) then Spells(h, Hex4(h)) else Hex4(h) == 0
    ensures u.used == 5 ==> var p := OneUnit(s, h, t);
                            s == PartText(p) + t && Permitted(p, t) && PartBytes(p) == u.bytes
  {
    if u.used == 5 {
      UnitText(s);
      var p := OneUnit(s, h, t);
      assert At(s[1..], 5) == At(t, 0) && At(s[1..], 6) == At(t, 1);
      NulFreeSlice(s, 2, 6, h);
      assert Permitted(p, t);
    }
  }

  lemma TwoUnitsText(s: string, h: string, l: string, t: string)
    requires |s| >= 12 && s[0] == '\\' && s[1] == 'u' && s[6] == '\\' && s[7] == 'u'
    requires h == s[2..6] && l == s[8..12] && t == s[12..]
    ensures s == Unit(h) + Unit(l) + t && Drop(s[1..], 7)[..4] == l
  {
    var q := s[6..];
    UnitText(s);
    UnitText(q);
    assert q[2..6] == l && q[6..] == t;
    Associative(Unit(h), Unit(l), t);
  }

  lemma UnescapeTwo(s: string, a: nat, b: nat, u: Unescaped)
    requires At(s, 0) == 'u' && u == Unescape(s) && u.used == 11 && a == Hex4(Drop(s, 1)) && b == Hex4(Drop(s, 7))
    ensures IsHigh(a) && At(s, 5) == '\\' && At(s, 6) == 'u'
    ensures u.bytes == if IsLow(b) then Transcode(0x10000 + a % 0x400 * 0x400 + b % 0x400) else ""
  {}

  lemma TwoUnitsPart(s: string, h: string, a: nat, b: nat, t: string)
    requires |s| >= 12 && s[0] == '\\' && s[1] == 'u' && s[6] == '\\' && s[7] == 'u' && h == s[2..6]
    requires t == s[12..] && NulFree(s[..12]) && a == Hex4(h) && b == Hex4(Drop(s[1..], 7)) && IsHigh(a) && Spells(h, a)
    ensures var p := TwoUnits(s, h, t);
            && s == PartText(p) + t && Permitted(p, t)
            && PartBytes(p) == if IsLow(b) then Transcode(0x10000 + a % 0x400 * 0x400 + b % 0x400) else ""
  {
    var l := s[8..12];
    TwoUnitsText(s, h, l, t);
    UnitRead(Drop(s[1..], 7), l);
    NulFreeSlice(s, 8, 12, l);
    PairPart(s, h, l, t, a, b);
  }

  lemma NulFreeSlice(s: string, i: nat, j: nat, l: string)
    requires i <= j <= |s| && NulFree(s[..j]) && l == s[i..j]
    ensures NulFree(l)
  {
    assert forall k :: 0 <= k < |l| ==> l[k] == s[..j][i + k];
  }

  lemma PairPart(s: string, h: string, l: string, t: string, u: nat, v: nat)
    requires |s| >= 12 && l == s[8..12] && u == Hex4(h) && v == Hex4(l) && IsHigh(u) && Spells(h, u)
    requires NulFree(l) && (IsLow(v) ==> Spells(l, v))
    ensures var p := TwoUnits(s, h, t);
            && Permitted(p, t) && PartText(p) == Unit(h) + Unit(l)
            && PartBytes(p) == if IsLow(v) then Transcode(0x10000 + u % 0x400 * 0x400 + v % 0x400) else ""
  {
    var p := TwoUnits(s, h, t);
    if IsLow(v) {
      PairSum(u, v);
      assert Permitted(p, t);
    } else {
      NoLowSpelled(l);
      assert Permitted(p, t);
    }
  }

  lemma PairSum(u: nat, v: nat)
    requires IsHigh(u) && IsLow(v)
    ensures var c := 0x10000 + u % 0x400 * 0x400 + v % 0x400;
            IsScalar(c) && c >= 0x10000 && HighUnit(c) == u && LowUnit(c) == v
  {}

  /** Every literal the parser accepts consists of permitted parts, and its value is that of the parts; it ends at
      its quote, or else at the end of the text. */
  lemma {:induction false} LiteralParts(s: string) returns (ps: seq<Part>, closed: bool, rest: string)
    requires DecodeStays(s)
    ensures s == PartsText(ps) + ((if closed then "\"" else "") + rest) && AllPermitted(ps)
    ensures DecodeBody(s) == Body(PartsBytes(ps), rest)
    ensures !closed ==> At(rest, 0) == '\0'
    decreases |s|
  {
    if s == [] || s[0] == '\0' {
      ps, closed, rest := [], false, s;
    } else if s[0] == '"' {
      ps, closed, rest := [], true, s[1..];
      assert s == "\"" + rest;
    } else {
      var p, t := FirstPart(s);
      var more;
      more, closed, rest := LiteralParts(t);
      ps := [p] + more;
      LongerLiteral(s, p, more, (if closed then "\"" else "") + rest, t, rest);
    }
  }

  lemma LongerLiteral(s: string, p: Part, ps: seq<Part>, after: string, t: string, rest: string)
    requires Begins(s, p, t) && t == PartsText(ps) + after && AllPermitted(ps)
    requires DecodeBody(t) == Body(PartsBytes(ps), rest)
    ensures var qs := [p] + ps;
            && s == PartsText(qs) + after && AllPermitted(qs)
            && DecodeBody(s) == Body(PartsBytes(qs), rest)
  {
    var qs := [p] + ps;
    assert qs[1..] == ps;
    Associative(PartText(p), PartsText(ps), after);
    var next := if ps != [] then PartText(ps[0]) else "";
    assert next <= t;
    StillPermitted(p, t, next);
  }

  lemma StillPermitted(p: Part, t: string, next: string)
    requires Permitted(p, t) && next <= t
    ensures Permitted(p, next)
  {}
}
