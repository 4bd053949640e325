/** `parse_string` as the source writes it: a counting pass, a block of that size, and a decoding pass that
    stores into the block. An access outside the text or the block ends the model's run with `Overran`. */
module JsonLiteralParser {
  import opened Common
  import opened Decimal
  import opened JsonLiteral

  /** What a parsing method found; `rest` of the text is given by a position. */
  datatype Outcome<T> = Failed | Overran | Got(value: T)

  /** The same as a value of the specification. */
  function Result<T>(o: Outcome<T>, rest: string): Parsed<T> {
    match o
    case Failed => Fail
    case Overran => Overrun
    case Got(v) => Ok(v, rest)
  }

  lemma Suffix(s: string, i: nat)
    requires i < |s|
    ensures s[i..] != [] && s[i..][0] == s[i] && s[i..][1..] == s[i + 1..]
  {}

  lemma SuffixAt(s: string, i: nat, k: nat)
    requires i <= |s|
    ensures At(s[i..], k) == At(s, i + k) && Drop(s[i..], k) == Drop(s, i + k)
  {}

  // Escapes

  method HexDigitAt(s: string, pos: nat) returns (h: int)
    ensures h == if IsHex(At(s, pos)) then HexValue(At(s, pos)) else -1
  {
    var c := At(s, pos);
    if '0' <= c <= '9' {
      return c as int - '0' as int;
    } else if 'A' <= c <= 'F' {
      return 10 + c as int - 'A' as int;
    } else if 'a' <= c <= 'f' {
      return 10 + c as int - 'a' as int;
    }
    return -1;
  }

  /** `parse_hex4`: the first character that is no digit ends it with zero. */
  method Hex4At(s: string, pos: nat) returns (h: nat)
    requires pos <= |s|
    ensures h == Hex4(s[pos..])
  {
    SuffixAt(s, pos, 0);
    SuffixAt(s, pos, 1);
    SuffixAt(s, pos, 2);
    SuffixAt(s, pos, 3);
    Hex4Digits(s[pos..]);
    h := 0;
    var d := HexDigitAt(s, pos);
    if d < 0 {
      return 0;
    }
    h := d * 16;
    d := HexDigitAt(s, pos + 1);
    if d < 0 {
      return 0;
    }
    h := (h + d) * 16;
    d := HexDigitAt(s, pos + 2);
    if d < 0 {
      return 0;
    }
    h := (h + d) * 16;
    d := HexDigitAt(s, pos + 3);
    if d < 0 {
      return 0;
    }
    h := h + d;
  }

  /** What a unit escape stands for and how far it reaches behind the backslash; zero for nothing. */
  function CodePoint(s: string): (r: (nat, nat))
    ensures r.0 < 0x110000 && (r.1 == 5 || r.1 == 11)
  {
    var uc := Hex4(Drop(s, 1));
    if 0xDC00 <= uc <= 0xDFFF || uc == 0 then (0, 5)
    else if 0xD800 <= uc <= 0xDBFF then
      if At(s, 5) != '\\' || At(s, 6) != 'u' then (0, 5)
      else
        var uc2 := Hex4(Drop(s, 7));
        if uc2 < 0xDC00 || uc2 > 0xDFFF then (0, 11) else (0x10000 + uc % 0x400 * 0x400 + uc2 % 0x400, 11)
    else (uc, 5)
  }

  lemma UnescapeCodePoint(s: string)
    requires At(s, 0) == 'u'
    ensures var c := CodePoint(s);
            Unescape(s) == Unescaped(if c.0 == 0 then "" else Transcode(c.0), c.1)
  {}

  method CodePointAt(s: string, pos: nat) returns (uc: nat, used: nat)
    requires pos < |s| && s[pos] == 'u'
    ensures (uc, used) == CodePoint(s[pos..])
  {
    SuffixAt(s, pos, 1);
    SuffixAt(s, pos, 5);
    SuffixAt(s, pos, 6);
    SuffixAt(s, pos, 7);
    uc := Hex4At(s, pos + 1);
    used := 5;
    if (0xDC00 <= uc <= 0xDFFF) || uc == 0 {
      return 0, used;
    }
    if 0xD800 <= uc <= 0xDBFF {
      if At(s, pos + 5) != '\\' || At(s, pos + 6) != 'u' {
        return 0, used;
      }
      var uc2 := Hex4At(s, pos + 7);
      used := 11;
      if uc2 < 0xDC00 || uc2 > 0xDFFF {
        return 0, used;
      }
      uc := 0x10000 + uc % 0x400 * 0x400 + uc2 % 0x400;
    }
  }

  /** `firstByteMark`. */
  function FirstByteMark(len: nat): nat {
    if len == 2 then 0xC0 else if len == 3 then 0xE0 else if len == 4 then 0xF0 else 0
  }

  function Utf8Length(uc: nat): (len: nat)
    ensures 1 <= len <= 4
  {
    if uc < 0x80 then 1 else if uc < 0x800 then 2 else if uc < 0x10000 then 3 else 4
  }

  lemma TranscodeParts(uc: nat)
    requires uc < 0x110000
    ensures var b, len := Transcode(uc), Utf8Length(uc);
            && |b| == len
            && (len >= 2 ==> b[len - 1] == (0x80 + uc % 64) as char)
            && (len >= 3 ==> b[len - 2] == (0x80 + uc / 64 % 64) as char)
            && (len >= 4 ==> b[1] == (0x80 + uc / 64 / 64 % 64) as char)
            && b[0] == ((if len == 1 then uc else if len == 2 then uc / 64 else if len == 3 then uc / 64 / 64
                         else uc / 64 / 64 / 64) + FirstByteMark(len)) as char
  {}

  /** The bytes of a code point, stored last byte first by the cases that fall through. */
  method StoreUtf8(out: array<char>, n: nat, uc: nat)
    requires uc < 0x110000 && n + Utf8Length(uc) <= out.Length
    modifies out
    ensures |Transcode(uc)| == Utf8Length(uc)
    ensures out[..n + Utf8Length(uc)] == old(out[..n]) + Transcode(uc)
  {
    TranscodeParts(uc);
    ghost var b := Transcode(uc);
    var len, c := Utf8Length(uc), uc;
    if len >= 4 {
      out[n + 3] := (0x80 + c % 64) as char;
      c := c / 64;
    }
    if len >= 3 {
      out[n + 2] := (0x80 + c % 64) as char;
      c := c / 64;
    }
    if len >= 2 {
      out[n + 1] := (0x80 + c % 64) as char;
      c := c / 64;
    }
    out[n] := (c + FirstByteMark(len)) as char;
    assert forall i :: 0 <= i < len ==> out[n + i] == b[i];
  }

  function ShortEscape(c: char): char {
    if c == 'b' then '\U{0008}' else if c == 'f' then '\U{000C}' else if c == 'n' then '\n'
    else if c == 'r' then '\r' else if c == 't' then '\t' else c
  }

  lemma UnescapeShortEscape(s: string)
    requires At(s, 0) != 'u'
    ensures Unescape(s) == Unescaped([ShortEscape(At(s, 0))], 1)
  {}

  /** No end of text among `k` characters. */
  predicate Reaches(s: string, pos: nat, k: nat) {
    pos + k <= |s| && forall i :: pos <= i < pos + k ==> s[i] != '\0'
  }

  /** What one escape at `pos` does to the block of which `n` bytes are written. */
  ghost predicate Escaped(s: string, pos: nat, u: Unescaped, before: string, ok: bool, after: string, next: nat, size: nat) {
    && (ok <==> Reaches(s, pos, 1 + u.used) && |before| + |u.bytes| < size)
    && (ok ==> next == pos + 1 + u.used && after == before + u.bytes)
  }

  method UnitEscapeAt(s: string, pos: nat, out: array<char>, n: nat) returns (ok: bool, n': nat, next: nat)
    requires pos + 1 < |s| && s[pos] == '\\' && s[pos + 1] == 'u' && n < out.Length
    modifies out
    ensures ok ==> n' < out.Length
    ensures Escaped(s, pos, Unescape(s[pos + 1..]), old(out[..n]), ok, if ok then out[..n'] else "", next, out.Length)
  {
    var uc, used := CodePointAt(s, pos + 1);
    UnescapeCodePoint(s[pos + 1..]);
    next, n', ok := pos + 1 + used, n, Reaches(s, pos, 1 + used);
    if !ok {
      return;
    }
    if uc == 0 {
      assert out[..n] + "" == out[..n];
      return;
    }
    n' := n + Utf8Length(uc);
    TranscodeLength(uc);
    ok := n' < out.Length;
    if ok {
      StoreUtf8(out, n, uc);
    }
  }

  lemma TranscodeLength(uc: nat)
    requires uc < 0x110000
    ensures |Transcode(uc)| == Utf8Length(uc)
  {}

  method EscapeAt(s: string, pos: nat, out: array<char>, n: nat) returns (ok: bool, n': nat, next: nat)
    requires pos < |s| && s[pos] == '\\' && n < out.Length
    modifies out
    ensures ok ==> n' < out.Length
    ensures Escaped(s, pos, Unescape(s[pos + 1..]), old(out[..n]), ok, if ok then out[..n'] else "", next, out.Length)
  {
    var c := At(s, pos + 1);
    SuffixAt(s, pos + 1, 0);
    if c == 'u' {
      ok, n', next := UnitEscapeAt(s, pos, out, n);
      return;
    }
    UnescapeShortEscape(s[pos + 1..]);
    n', next, ok := n + 1, pos + 2, Reaches(s, pos, 2) && n + 1 < out.Length;
    if ok {
      out[n] := ShortEscape(c);
      assert out[..n'] == old(out[..n]) + [ShortEscape(c)];
    }
  }

  // Both passes

  /** What is known when the counting pass has reached `pos`. */
  ghost predicate Counting(s: string, from: nat, len: nat, pos: nat)
    requires from <= |s|
  {
    && from <= pos <= |s|
    && CountBody(s[from..]) == len + CountBody(s[pos..])
    && (CountStays(s[from..]) <==> CountStays(s[pos..]))
  }

  lemma CountPlainAt(s: string, from: nat, len: nat, pos: nat)
    requires from <= |s| && Counting(s, from, len, pos) && pos < |s|
    requires s[pos] != '"' && s[pos] != '\0' && s[pos] != '\\'
    ensures Counting(s, from, len + 1, pos + 1)
  {
    Suffix(s, pos);
  }

  lemma CountEscapeAt(s: string, from: nat, len: nat, pos: nat)
    requires from <= |s| && Counting(s, from, len, pos) && pos + 1 < |s| && s[pos] == '\\' && s[pos + 1] != '\0'
    ensures Counting(s, from, len + 1, pos + 2)
  {
    var t := s[pos..];
    assert t[0] == s[pos] && t[1] == s[pos + 1] && t[2..] == s[pos + 2..];
  }

  lemma CountStrays(s: string, from: nat, len: nat, pos: nat)
    requires from <= |s| && Counting(s, from, len, pos) && pos < |s| && s[pos] == '\\' && At(s, pos + 1) == '\0'
    ensures !CountStays(s[from..])
  {
    assert s[pos..][0] == s[pos] && (pos + 1 < |s| ==> s[pos..][1] == s[pos + 1]);
  }

  method CountRound(s: string, ghost from: nat, ghost len: nat, pos: nat) returns (ok: bool, pos': nat)
    requires from <= |s| && Counting(s, from, len, pos) && pos < |s| && s[pos] != '"' && s[pos] != '\0'
    ensures if ok then pos < pos' <= |s| && Counting(s, from, len + 1, pos') else !CountStays(s[from..])
  {
    if s[pos] != '\\' {
      CountPlainAt(s, from, len, pos);
      return true, pos + 1;
    }
    if At(s, pos + 1) == '\0' {
      CountStrays(s, from, len, pos);
      return false, pos;
    }
    CountEscapeAt(s, from, len, pos);
    return true, pos + 2;
  }

  lemma CountStarts(s: string, from: nat)
    requires from <= |s|
    ensures Counting(s, from, 0, from)
  {}

  /** The counting pass; `ok` unless it steps over the end of the text. */
  method CountPass(s: string, from: nat) returns (ok: bool, len: nat)
    requires from <= |s|
    ensures ok <==> CountStays(s[from..])
    ensures ok ==> len == CountBody(s[from..])
  {
    var pos := from;
    len, ok := 0, true;
    CountStarts(s, from);
    while pos < |s| && s[pos] != '"' && s[pos] != '\0'
      invariant ok && from <= pos <= |s| && Counting(s, from, len, pos)
      decreases |s| - pos
    {
      ok, pos := CountRound(s, from, len, pos);
      len := len + 1;
      if !ok {
        return;
      }
    }
    CountEnds(s, from, len, pos);
  }

  lemma CountEnds(s: string, from: nat, len: nat, pos: nat)
    requires from <= |s| && Counting(s, from, len, pos) && (pos == |s| || s[pos] == '"' || s[pos] == '\0')
    ensures CountStays(s[from..]) && len == CountBody(s[from..])
  {
    assert pos < |s| ==> s[pos..][0] == s[pos];
  }

  /** What is known when the decoding pass has reached `pos` with `done` in the block. */
  ghost predicate Decoding(s: string, from: nat, done: string, pos: nat)
    requires from <= |s|
  {
    && from <= pos <= |s|
    && DecodeBody(s[from..]) == Prepend(done, DecodeBody(s[pos..]))
    && (DecodeStays(s[from..]) <==> DecodeStays(s[pos..]))
  }

  lemma DecodePlainAt(s: string, from: nat, done: string, pos: nat)
    requires from <= |s| && Decoding(s, from, done, pos) && pos < |s|
    requires s[pos] != '"' && s[pos] != '\0' && s[pos] != '\\'
    ensures Decoding(s, from, done + [s[pos]], pos + 1)
    ensures |DecodeBody(s[from..]).bytes| > |done|
  {
    Suffix(s, pos);
    PrependTwice(done, [s[pos]], DecodeBody(s[pos + 1..]));
  }

  lemma ReachesNulFree(s: string, pos: nat, k: nat)
    requires pos + k <= |s|
    ensures Reaches(s, pos, k) <==> NulFree(s[pos..][..k])
  {
    var t := s[pos..][..k];
    if NulFree(t) {
      forall i | pos <= i < pos + k ensures s[i] != '\0' {
        assert t[i - pos] == s[i];
      }
    }
  }

  lemma DecodeEscapeAt(s: string, from: nat, done: string, pos: nat, u: Unescaped, next: nat)
    requires from <= |s| && Decoding(s, from, done, pos) && pos < |s| && s[pos] == '\\' && u == Unescape(s[pos + 1..])
    requires next == pos + 1 + u.used && Reaches(s, pos, 1 + u.used)
    ensures Decoding(s, from, done + u.bytes, next)
  {
    var t, k := s[pos..], 1 + u.used;
    Suffix(s, pos);
    assert t[k..] == s[next..];
    ReachesNulFree(s, pos, k);
    DecodeEscape(t, u, t[k..]);
    DecodeStaysEscape(t, u, t[k..]);
    PrependTwice(done, u.bytes, DecodeBody(t[k..]));
  }

  lemma EscapeStrays(s: string, from: nat, done: string, pos: nat, u: Unescaped)
    requires from <= |s| && Decoding(s, from, done, pos) && pos < |s| && s[pos] == '\\' && u == Unescape(s[pos + 1..])
    requires !Reaches(s, pos, 1 + u.used)
    ensures !DecodeStays(s[from..])
  {
    var t, k := s[pos..], 1 + u.used;
    Suffix(s, pos);
    if pos + k <= |s| {
      ReachesNulFree(s, pos, k);
      DecodeStaysEscape(t, u, t[k..]);
    }
  }

  lemma WrittenTooMuch(s: string, from: nat, done: string, pos: nat, size: nat)
    requires from <= |s| && Decoding(s, from, done, pos) && |done| >= size
    ensures !Suffices(s, from, size)
  {}

  lemma DecodeEnds(s: string, from: nat, done: string, pos: nat)
    requires from <= |s| && Decoding(s, from, done, pos)
    requires pos == |s| || s[pos] == '"' || s[pos] == '\0'
    ensures DecodeStays(s[from..])
    ensures DecodeBody(s[from..]) == Body(done, if At(s, pos) == '"' then s[pos + 1..] else s[pos..])
  {
    if pos < |s| {
      Suffix(s, pos);
    }
    assert done + "" == done;
  }

  /** The text and the block suffice for the decoding pass. */
  ghost predicate Suffices(s: string, from: nat, size: nat)
    requires from <= |s|
  {
    DecodeStays(s[from..]) && |DecodeBody(s[from..]).bytes| < size
  }

  lemma EscapeOverflows(s: string, from: nat, done: string, pos: nat, u: Unescaped, size: nat)
    requires from <= |s| && Decoding(s, from, done, pos) && pos < |s| && s[pos] == '\\' && u == Unescape(s[pos + 1..])
    requires Reaches(s, pos, 1 + u.used) && |done| + |u.bytes| >= size
    ensures !Suffices(s, from, size)
  {
    var after, next := done + u.bytes, pos + 1 + u.used;
    DecodeEscapeAt(s, from, done, pos, u, next);
    WrittenTooMuch(s, from, after, next, size);
  }

  lemma EscapeDecodes(s: string, from: nat, done: string, pos: nat, u: Unescaped, ok: bool, after: string, next: nat, size: nat)
    requires from <= |s| && Decoding(s, from, done, pos) && pos < |s| && s[pos] == '\\'
    requires u == Unescape(s[pos + 1..]) && Escaped(s, pos, u, done, ok, after, next, size)
    ensures if ok then pos < next <= |s| && Decoding(s, from, after, next) else !Suffices(s, from, size)
  {
    if ok {
      DecodeEscapeAt(s, from, done, pos, u, next);
    } else if Reaches(s, pos, 1 + u.used) {
      EscapeOverflows(s, from, done, pos, u, size);
    } else {
      EscapeStrays(s, from, done, pos, u);
    }
  }

  lemma PlainDecodes(s: string, from: nat, done: string, pos: nat, ok: bool, size: nat)
    requires from <= |s| && Decoding(s, from, done, pos) && pos < |s|
    requires s[pos] != '"' && s[pos] != '\0' && s[pos] != '\\'
    requires ok <==> |done| + 1 < size
    ensures if ok then Decoding(s, from, done + [s[pos]], pos + 1) else !Suffices(s, from, size)
  {
    DecodePlainAt(s, from, done, pos);
  }

  method PlainRound(s: string, ghost from: nat, out: array<char>, n: nat, pos: nat) returns (ok: bool)
    requires from <= |s| && n < out.Length && Decoding(s, from, out[..n], pos)
    requires pos < |s| && s[pos] != '"' && s[pos] != '\0' && s[pos] != '\\'
    modifies out
    ensures ok ==> n + 1 < out.Length && Decoding(s, from, out[..n + 1], pos + 1)
    ensures !ok ==> !Suffices(s, from, out.Length)
  {
    ghost var done := out[..n];
    ok := n + 1 < out.Length;
    PlainDecodes(s, from, done, pos, ok, out.Length);
    if ok {
      out[n] := s[pos];
      assert out[..n + 1] == done + [s[pos]];
    }
  }

  method EscapeRound(s: string, ghost from: nat, out: array<char>, n: nat, pos: nat)
    returns (ok: bool, n': nat, pos': nat)
    requires from <= |s| && n < out.Length && Decoding(s, from, out[..n], pos) && pos < |s| && s[pos] == '\\'
    modifies out
    ensures ok ==> pos < pos' <= |s| && n' < out.Length && Decoding(s, from, out[..n'], pos')
    ensures !ok ==> !Suffices(s, from, out.Length)
  {
    ghost var done, u := out[..n], Unescape(s[pos + 1..]);
    ok, n', pos' := EscapeAt(s, pos, out, n);
    EscapeDecodes(s, from, done, pos, u, ok, if ok then out[..n'] else "", pos', out.Length);
  }

  /** One round of the decoding pass. */
  method DecodeRound(s: string, ghost from: nat, out: array<char>, n: nat, pos: nat)
    returns (ok: bool, n': nat, pos': nat)
    requires from <= |s| && n < out.Length && Decoding(s, from, out[..n], pos)
    requires pos < |s| && s[pos] != '"' && s[pos] != '\0'
    modifies out
    ensures ok ==> pos < pos' <= |s| && n' < out.Length && Decoding(s, from, out[..n'], pos')
    ensures !ok ==> !Suffices(s, from, out.Length)
  {
    if s[pos] != '\\' {
      n', pos' := n + 1, pos + 1;
      ok := PlainRound(s, from, out, n, pos);
    } else {
      ok, n', pos' := EscapeRound(s, from, out, n, pos);
    }
  }

  /** The decoding pass, up to the closing quote. */
  method DecodePass(s: string, from: nat, out: array<char>) returns (ok: bool, n: nat, pos: nat)
    requires from <= |s| && out.Length > 0
    modifies out
    ensures ok <==> Suffices(s, from, out.Length)
    ensures ok ==> from <= pos <= |s| && n < out.Length
    ensures ok ==> DecodeBody(s[from..]) == Body(out[..n], if At(s, pos) == '"' then s[pos + 1..] else s[pos..])
  {
    ok, n, pos := true, 0, from;
    DecodeStarts(s, from, out[..0]);
    while pos < |s| && s[pos] != '"' && s[pos] != '\0'
      invariant from <= pos <= |s| && n < out.Length && Decoding(s, from, out[..n], pos)
      decreases |s| - pos
    {
      ok, n, pos := DecodeRound(s, from, out, n, pos);
      if !ok {
        return;
      }
    }
    DecodeEnds(s, from, out[..n], pos);
  }

  lemma DecodeStarts(s: string, from: nat, done: string)
    requires from <= |s| && done == ""
    ensures Decoding(s, from, done, from)
  {
    assert done + DecodeBody(s[from..]).bytes == DecodeBody(s[from..]).bytes;
  }

  /** `parse_string` behind its opening quote. */
  method ParseStringAt(s: string, from: nat) returns (o: Outcome<string>, pos: nat)
    requires from <= |s|
    ensures from <= pos <= |s|
    ensures ParseLiteral(s[from..]) == Result(o, s[pos..])
  {
    var ok, len := CountPass(s, from);
    if !ok {
      return Overran, from;
    }
    var out := new char[len + 1];
    var n;
    ok, n, pos := DecodePass(s, from, out);
    if !ok {
      return Overran, from;
    }
    o := Got(out[..n]);
    out[n] := '\0';
    if At(s, pos) == '"' {
      pos := pos + 1;
    }
  }
}
