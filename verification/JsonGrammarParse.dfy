/** The parser takes every text of the grammar for what it stands for. */
module JsonGrammarParse {
  import opened Common
  import opened Decimal
  import opened JsonLiteral
  import opened JsonLenient
  import opened JsonText
  import opened JsonRoundTrip
  import opened JsonUnicode
  import opened JsonGrammar

  // Gaps

  lemma {:induction false} SkipGap(g: Gap, t: string)
    requires Blank(g)
    ensures Skip(GapText(g) + t) == Skip(t)
  {
    if g == [] {
      assert GapText(g) + t == t;
    } else {
      SkipGap(g[1..], t);
      Associative(TriviumText(g[0]), GapText(g[1..]), t);
      SkipOne(g[0].c, GapText(g[1..]) + t);
    }
  }

  lemma GapStart(g: Gap, t: string)
    requires Blank(g)
    ensures GapText(g) + t == t || !IsDigit(At(GapText(g) + t, 0))
  {
    if g == [] {
      assert GapText(g) + t == t;
    } else {
      assert (GapText(g) + t)[0] == g[0].c;
    }
  }

  // Numbers

  lemma NumeralMagnitude(zero: bool, digits: string, rest: string, t: string)
    requires IsNumeral(true, zero, digits) && EndsAt(Numeral(true, zero, digits), rest)
    requires t == (if zero then "0" else "") + digits + rest
    ensures Magnitude(t) == (Wrap(ValueOf(digits)), rest)
  {
    var u := digits + rest;
    assert t == (if zero then "0" else "") + u;
    assert (if zero then t[1..] else t) == u;
    if digits == [] {
      assert u == rest;
      assert u[..0] == [];
    } else {
      ParseDigits(digits, ValueOf(digits), rest, u);
    }
  }

  lemma WrapWrap(n: int)
    ensures Wrap(Wrap(n)) == Wrap(n) && Wrap(-Wrap(n)) == Wrap(-n)
  {
    var q := (n - INT_MIN) / 0x1_0000_0000;
    assert Wrap(n) == n - 0x1_0000_0000 * q;
    WrapShift(n, -q);
    WrapShift(-n, q);
  }

  lemma ParseNumeral(negative: bool, zero: bool, digits: string, rest: string)
    requires IsNumeral(negative, zero, digits) && EndsAt(Numeral(negative, zero, digits), rest)
    ensures ParseNumber(NumeralText(negative, zero, digits) + rest) == Ok(Number(NumeralValue(negative, digits), 0), rest)
  {
    var body := (if zero then "0" else "") + digits;
    SignText(negative, body, rest);
    ParseBody(negative, zero, digits, rest, body + rest);
  }

  lemma ParseBody(negative: bool, zero: bool, digits: string, rest: string, t: string)
    requires IsNumeral(negative, zero, digits) && EndsAt(Numeral(negative, zero, digits), rest)
    requires t == (if zero then "0" else "") + digits + rest
    ensures ParseNumber(if negative then "-" + t else t) == Ok(Number(NumeralValue(negative, digits), 0), rest)
  {
    var n := ValueOf(digits);
    NumeralMagnitude(zero, digits, rest, t);
    assert negative || At(t, 0) != '-' by {
      if !negative {
        NumeralFirst(zero, digits, rest, t);
      }
    }
    SignedValue(negative, t, n, NumeralValue(negative, digits), rest);
  }

  lemma SignedValue(negative: bool, t: string, n: nat, v: int, rest: string)
    requires (negative || At(t, 0) != '-') && Magnitude(t) == (Wrap(n), rest)
    requires v == var k: int := n; Wrap(if negative then -k else k)
    ensures ParseNumber(if negative then "-" + t else t) == Ok(Number(v, 0), rest)
  {
    ParseSign(negative, t, n, rest);
  }

  lemma SignText(negative: bool, body: string, rest: string)
    ensures (if negative then "-" else "") + body + rest == if negative then "-" + (body + rest) else body + rest
  {
    if negative {
      Associative("-", body, rest);
    } else {
      assert "" + body == body;
    }
  }

  lemma ParseSign(negative: bool, t: string, n: int, rest: string)
    requires (negative || At(t, 0) != '-') && Magnitude(t) == (Wrap(n), rest)
    ensures ParseNumber(if negative then "-" + t else t) == Ok(Number(Wrap(if negative then -n else n), 0), rest)
  {
    if negative {
      ParseMinus(t, n, rest);
    } else {
      ParsePlus(t, n, rest);
    }
  }

  lemma ParsePlus(t: string, n: int, rest: string)
    requires At(t, 0) != '-' && Magnitude(t) == (Wrap(n), rest)
    ensures ParseNumber(t) == Ok(Number(Wrap(n), 0), rest)
  {
    WrapWrap(n);
  }

  lemma ParseMinus(t: string, n: int, rest: string)
    requires Magnitude(t) == (Wrap(n), rest)
    ensures ParseNumber("-" + t) == Ok(Number(Wrap(-n), 0), rest)
  {
    assert ("-" + t)[1..] == t;
    WrapWrap(n);
  }

  lemma NumeralFirst(zero: bool, digits: string, rest: string, t: string)
    requires IsNumeral(false, zero, digits) && t == (if zero then "0" else "") + digits + rest
    ensures IsDigit(At(t, 0))
  {
    if !zero {
      assert t[0] == digits[0];
    }
  }

  // Literals

  lemma {:induction false} StrictText(ps: seq<Part>) returns (qs: seq<Piece>)
    requires StrictParts(ps)
    ensures forall i :: 0 <= i < |qs| ==> WellFormed(qs[i])
    ensures PartsText(ps) == TextAll(qs) && PartsBytes(ps) == BytesAll(qs)
  {
    if ps == [] {
      qs := [];
    } else {
      var more := StrictText(ps[1..]);
      qs := [ps[0].piece] + more;
      assert qs[1..] == more;
    }
  }

  lemma ParseStrictLiteral(ps: seq<Part>, rest: string)
    requires StrictParts(ps)
    ensures var s := LiteralText(ps, true) + rest;
            s != [] && s[0] == '"' && ParseLiteral(s[1..]) == Ok(PartsBytes(ps), rest)
  {
    var qs := StrictText(ps);
    CountSuffices(qs, rest);
    Associative("\"", PartsText(ps) + "\"", rest);
    Associative(PartsText(ps), "\"", rest);
    var t := PartsText(ps) + ("\"" + rest);
    assert ("\"" + t)[1..] == t;
  }

  // Documents

  /** Every document stands for its meaning, in front of any text that does not continue it. */
  lemma {:induction false} ParseDoc(d: Doc, rest: string)
    requires Formed(d, true) && EndsAt(d, rest)
    ensures ParseValue(DocText(d) + rest) == Ok(Meaning(d), rest)
    decreases d, 2
  {
    match d
    case Word(v) => LiteralDispatch(rest);
    case Numeral(negative, zero, digits) =>
      ParseNumeral(negative, zero, digits, rest);
      NumeralDispatch(negative, zero, digits, rest);
    case Literal(parts, closed) =>
      ParseStrictLiteral(parts, rest);
      NoLiteral(DocText(d) + rest);
    case List(items, inner) => ParseList(items, inner, rest);
    case Table(entries, inner) => ParseTable(entries, inner, rest);
  }

  lemma NumeralDispatch(negative: bool, zero: bool, digits: string, rest: string)
    requires IsNumeral(negative, zero, digits)
    ensures var s := NumeralText(negative, zero, digits) + rest; ParseValue(s) == ParseNumber(s)
  {
    var z, s := if zero then "0" else "", NumeralText(negative, zero, digits) + rest;
    if !negative {
      assert s == z + digits + rest;
      NumeralFirst(zero, digits, rest, s);
    }
    NumberDispatch(s);
  }

  /** A document starts with a character that is no white space and closes nothing. */
  lemma DocStarts(d: Doc)
    requires Formed(d, true)
    ensures StartsToken(DocText(d))
  {
    if d.Numeral? && !d.negative && !d.zero {
      assert DocText(d) == d.digits;
    }
  }

  lemma {:induction false} ParseList(items: seq<Item>, inner: Gap, rest: string)
    requires Formed(List(items, inner), true)
    ensures ParseValue(DocText(List(items, inner)) + rest) == Ok(Meaning(List(items, inner)), rest)
    decreases items, 1
  {
    var body := if items == [] then GapText(inner) else ListText(items);
    var t := body + ("]" + rest);
    Associative("[", body + "]", rest);
    Associative(body, "]", rest);
    ArrayDispatch(t);
    if items == [] {
      SkipGap(inner, "]" + rest);
      SkipStays("]" + rest);
      assert ("]" + rest)[1..] == rest;
    } else {
      ItemsStart(items, "]" + rest);
      ParseDocItems(items, rest);
      ItemsSkip(Skip(t), t);
    }
  }

  /** Skipping the first gap reaches the first item. */
  lemma ItemsStart(items: seq<Item>, tail: string)
    requires items != [] && FormedItem(items[0], true)
    ensures var t := Skip(ListText(items) + tail);
            t != [] && t[0] != ']' && Skip(t) == t
  {
    var i := items[0];
    var more := GapText(i.after) + (if |items| == 1 then "" else "," + ListText(items[1..]));
    Associative(GapText(i.before), DocText(i.doc) + more, tail);
    Associative(DocText(i.doc), more, tail);
    DocStarts(i.doc);
    SkipGap(i.before, DocText(i.doc) + (more + tail));
    SkipStays(DocText(i.doc) + (more + tail));
  }

  /** What follows an item: a gap, then a comma or the closing bracket. */
  lemma AfterDoc(d: Doc, g: Gap, tail: string)
    requires Formed(d, true) && Ended(d) && Blank(g) && tail != [] && !IsDigit(tail[0]) && tail[0] > ' '
    ensures EndsAt(d, GapText(g) + tail) && Skip(GapText(g) + tail) == tail
  {
    GapStart(g, tail);
    SkipGap(g, tail);
    SkipStays(tail);
  }

  lemma {:induction false} ParseDocItems(items: seq<Item>, rest: string)
    requires items != [] && forall i :: 0 <= i < |items| ==> FormedItem(items[i], true)
    ensures ParseItems(ListText(items) + ("]" + rest)) == Ok(ItemMeanings(items), rest)
    decreases items, 0
  {
    var i := items[0];
    if |items| == 1 {
      var tail := "]" + rest;
      AfterDoc(i.doc, i.after, tail);
      ParseDoc(i.doc, GapText(i.after) + tail);
      OneItemText(items, tail, tail);
      FirstItem(i, ListText(items) + tail, tail);
      assert tail[1..] == rest;
      LastItemMeaning(items);
    } else {
      var close := "]" + rest;
      var more := ListText(items[1..]) + close;
      var tail := "," + more;
      AfterDoc(i.doc, i.after, tail);
      ParseDoc(i.doc, GapText(i.after) + tail);
      OneItemText(items, close, tail);
      FirstItem(i, ListText(items) + close, tail);
      ParseDocItems(items[1..], rest);
      assert tail[1..] == more;
    }
  }

  lemma LastItemMeaning(items: seq<Item>)
    requires |items| == 1
    ensures ItemMeanings(items) == [Meaning(items[0].doc)]
  {
    assert items[1..] == [];
  }

  lemma LastEntryMeaning(entries: seq<Entry>)
    requires |entries| == 1
    ensures EntryMeanings(entries) == [Member(PartsBytes(entries[0].name), Meaning(entries[0].doc))]
  {
    assert entries[1..] == [];
  }

  lemma OneItemText(items: seq<Item>, close: string, tail: string)
    requires items != []
    requires tail == if |items| == 1 then close else "," + (ListText(items[1..]) + close)
    ensures var i := items[0];
            ListText(items) + close == GapText(i.before) + (DocText(i.doc) + (GapText(i.after) + tail))
  {
    var i := items[0];
    var more := if |items| == 1 then "" else "," + ListText(items[1..]);
    Regroup(GapText(i.before), DocText(i.doc), GapText(i.after), more, close);
    if |items| > 1 {
      Associative(",", ListText(items[1..]), close);
    } else {
      assert more + close == close;
    }
  }

  lemma Regroup(a: string, b: string, c: string, d: string, e: string)
    ensures a + (b + (c + d)) + e == a + (b + (c + (d + e)))
  {
    Associative(a, b + (c + d), e);
    Associative(b, c + d, e);
    Associative(c, d, e);
  }

  lemma FirstItem(i: Item, s: string, tail: string)
    requires FormedItem(i, true) && s == GapText(i.before) + (DocText(i.doc) + (GapText(i.after) + tail))
    requires ParseValue(DocText(i.doc) + (GapText(i.after) + tail)) == Ok(Meaning(i.doc), GapText(i.after) + tail)
    requires Skip(GapText(i.after) + tail) == tail
    ensures ParseItems(s) == ItemsAfter(Meaning(i.doc), tail)
  {
    var t := DocText(i.doc) + (GapText(i.after) + tail);
    SkipGap(i.before, t);
    DocStarts(i.doc);
    SkipStays(t);
  }

  lemma {:induction false} ParseTable(entries: seq<Entry>, inner: Gap, rest: string)
    requires Formed(Table(entries, inner), true)
    ensures ParseValue(DocText(Table(entries, inner)) + rest) == Ok(Meaning(Table(entries, inner)), rest)
    decreases entries, 1
  {
    var body := if entries == [] then GapText(inner) else TableText(entries);
    var t := body + ("}" + rest);
    Associative("{", body + "}", rest);
    Associative(body, "}", rest);
    ObjectDispatch(t);
    if entries == [] {
      SkipGap(inner, "}" + rest);
      SkipStays("}" + rest);
      assert ("}" + rest)[1..] == rest;
    } else {
      EntriesStart(entries, "}" + rest);
      ParseDocEntries(entries, rest);
      MembersSkip(Skip(t), t);
    }
  }

  /** The entry, from its name on. */
  function NamedText(e: Entry, tail: string): string {
    LiteralText(e.name, true) + (GapText(e.mid) + (":" + (GapText(e.gap) + (DocText(e.doc) + (GapText(e.after) + tail)))))
  }

  lemma OneEntryText(entries: seq<Entry>, close: string, tail: string)
    requires entries != []
    requires tail == if |entries| == 1 then close else "," + (TableText(entries[1..]) + close)
    ensures TableText(entries) + close == GapText(entries[0].before) + NamedText(entries[0], tail)
  {
    var e := entries[0];
    var more := if |entries| == 1 then "" else "," + TableText(entries[1..]);
    var v := GapText(e.gap) + (DocText(e.doc) + (GapText(e.after) + more));
    Regroup(GapText(e.gap), DocText(e.doc), GapText(e.after), more, close);
    Associative(":", v, close);
    Regroup(GapText(e.before), LiteralText(e.name, true), GapText(e.mid), ":" + v, close);
    if |entries| > 1 {
      Associative(",", TableText(entries[1..]), close);
    } else {
      assert more + close == close;
    }
  }

  lemma EntriesStart(entries: seq<Entry>, close: string)
    requires entries != [] && FormedEntry(entries[0], true)
    ensures var t := Skip(TableText(entries) + close);
            t != [] && t[0] != '}' && Skip(t) == t
  {
    var tail := if |entries| == 1 then close else "," + (TableText(entries[1..]) + close);
    OneEntryText(entries, close, tail);
    SkipGap(entries[0].before, NamedText(entries[0], tail));
    SkipStays(NamedText(entries[0], tail));
  }

  lemma {:induction false} ParseDocEntries(entries: seq<Entry>, rest: string)
    requires entries != [] && forall i :: 0 <= i < |entries| ==> FormedEntry(entries[i], true)
    ensures ParseMembers(TableText(entries) + ("}" + rest)) == Ok(EntryMeanings(entries), rest)
    decreases entries, 0
  {
    var e, close := entries[0], "}" + rest;
    if |entries| == 1 {
      AfterDoc(e.doc, e.after, close);
      ParseDoc(e.doc, GapText(e.after) + close);
      ParseFirstEntry(entries, close, close);
      assert close[1..] == rest;
      LastEntryMeaning(entries);
    } else {
      var more := TableText(entries[1..]) + close;
      var tail := "," + more;
      AfterDoc(e.doc, e.after, tail);
      ParseDoc(e.doc, GapText(e.after) + tail);
      ParseFirstEntry(entries, close, tail);
      ParseDocEntries(entries[1..], rest);
      assert tail[1..] == more;
    }
  }

  lemma ParseFirstEntry(entries: seq<Entry>, close: string, tail: string)
    requires entries != [] && FormedEntry(entries[0], true)
    requires tail == if |entries| == 1 then close else "," + (TableText(entries[1..]) + close)
    requires var e := entries[0];
             && ParseValue(DocText(e.doc) + (GapText(e.after) + tail)) == Ok(Meaning(e.doc), GapText(e.after) + tail)
             && Skip(GapText(e.after) + tail) == tail
    ensures var e := entries[0];
            ParseMembers(TableText(entries) + close) == MembersAfter(Member(PartsBytes(e.name), Meaning(e.doc)), tail)
  {
    OneEntryText(entries, close, tail);
    FirstEntry(entries[0], TableText(entries) + close, tail);
  }

  lemma FirstEntry(e: Entry, s: string, tail: string)
    requires FormedEntry(e, true) && s == GapText(e.before) + NamedText(e, tail)
    requires ParseValue(DocText(e.doc) + (GapText(e.after) + tail)) == Ok(Meaning(e.doc), GapText(e.after) + tail)
    requires Skip(GapText(e.after) + tail) == tail
    ensures ParseMembers(s) == MembersAfter(Member(PartsBytes(e.name), Meaning(e.doc)), tail)
  {
    var v := DocText(e.doc) + (GapText(e.after) + tail);
    EntryName(e, s, v, NamedText(e, tail));
    DocStarts(e.doc);
    SkipStays(v);
    assert ParseMembers(s) == ParseNamed(PartsBytes(e.name), v);
  }

  lemma EntryName(e: Entry, s: string, v: string, t: string)
    requires StrictParts(e.name) && Blank(e.before) && Blank(e.mid) && Blank(e.gap) && s == GapText(e.before) + t
    requires t == LiteralText(e.name, true) + (GapText(e.mid) + (":" + (GapText(e.gap) + v)))
    ensures ParseName(s) == Ok(PartsBytes(e.name), Skip(v))
  {
    var colon := ":" + (GapText(e.gap) + v);
    SkipGap(e.before, t);
    SkipStays(t);
    ParseStrictLiteral(e.name, GapText(e.mid) + colon);
    SkipGap(e.mid, colon);
    SkipStays(colon);
    assert colon[1..] == GapText(e.gap) + v;
    SkipGap(e.gap, v);
  }

  /** Whole texts: leading white space, a document, trailing white space, with or without insisting on the end. */
  lemma ParseWholeText(lead: Gap, d: Doc, trail: Gap, requireEnd: bool)
    requires Blank(lead) && Blank(trail) && Formed(d, true)
    ensures var rest := GapText(trail);
            ParseDocument(GapText(lead) + (DocText(d) + rest), requireEnd) ==
            Ok(Meaning(d), if requireEnd then "" else rest)
  {
    var rest := GapText(trail);
    assert rest + "" == rest;
    GapStart(trail, "");
    SkipGap(trail, "");
    ParseDoc(d, rest);
    SkipGap(lead, DocText(d) + rest);
    DocStarts(d);
    SkipStays(DocText(d) + rest);
  }

  /** Anything else behind the document is refused on request: `junk` starts with a character that is neither
      white space nor the end of the text nor continues the document. */
  lemma RefuseTrailingText(d: Doc, trail: Gap, junk: string)
    requires Blank(trail) && Formed(d, true) && junk != [] && junk[0] > ' ' && EndsAt(d, GapText(trail) + junk)
    ensures ParseDocument(DocText(d) + (GapText(trail) + junk), true) == Fail
    ensures ParseDocument(DocText(d) + (GapText(trail) + junk), false) == Ok(Meaning(d), GapText(trail) + junk)
  {
    var rest := GapText(trail) + junk;
    SkipGap(trail, junk);
    SkipStays(junk);
    ParseDoc(d, rest);
    DocStarts(d);
    SkipStays(DocText(d) + rest);
  }
}
