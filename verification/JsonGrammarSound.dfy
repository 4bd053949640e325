/** The parser accepts nothing but texts of the grammar, with literals as `JsonLenient` has them, and returns what
    they stand for. */
module JsonGrammarSound {
  import opened Common
  import opened Decimal
  import opened JsonLiteral
  import opened JsonLenient
  import opened JsonText
  import opened JsonUnicode
  import opened JsonGrammar
  import JsonRoundTrip
  import G = JsonGrammarParse

  lemma {:induction false} SkipSplit(s: string) returns (g: Gap)
    ensures s == GapText(g) + Skip(s) && Blank(g)
  {
    if s != [] && s[0] != '\0' && s[0] <= ' ' {
      var more := SkipSplit(s[1..]);
      g := [Space(s[0])] + more;
      LongerGap(s[0], more, g, s[1..], Skip(s[1..]));
      HeadTail(s, s[0]);
    } else {
      g := [];
      assert "" + s == s;
    }
  }

  lemma LongerGap(c: char, more: Gap, g: Gap, s: string, t: string)
    requires s == GapText(more) + t && g == [Space(c)] + more
    ensures [c] + s == GapText(g) + t
  {
    assert g[1..] == more;
    Associative([c], GapText(more), t);
  }

  // Numbers

  lemma SoundMagnitude(s: string) returns (zero: bool, digits: string)
    ensures var m := Magnitude(s);
            && AllDigits(digits) && (digits != [] ==> digits[0] != '0')
            && s == (if zero then "0" else "") + digits + m.1 && m.0 == Accumulate(digits)
            && EndsAt(Numeral(true, zero, digits), m.1)
            && (IsDigit(At(s, 0)) ==> zero || digits != [])
  {
    zero := At(s, 0) == '0';
    var t := if zero then s[1..] else s;
    var k := if '1' <= At(t, 0) <= '9' then DigitsOf(t) else 0;
    MagnitudeEnds(t, k);
    digits := t[..k];
    MagnitudeText(s, t, zero, digits, t[k..]);
  }

  lemma MagnitudeText(s: string, t: string, zero: bool, digits: string, rest: string)
    requires zero == (At(s, 0) == '0') && t == (if zero then s[1..] else s) && t == digits + rest
    ensures s == (if zero then "0" else "") + digits + rest
  {
    if zero {
      assert s == "0" + t;
      Associative("0", digits, rest);
    }
  }

  lemma MagnitudeEnds(t: string, k: nat)
    requires k == if '1' <= At(t, 0) <= '9' then DigitsOf(t) else 0
    ensures k <= |t| && AllDigits(t[..k]) && (t[..k] != [] ==> t[..k][0] != '0') && t == t[..k] + t[k..]
    ensures if k == 0 then !('1' <= At(t[k..], 0) <= '9') else !IsDigit(At(t[k..], 0))
    ensures '1' <= At(t, 0) <= '9' ==> k > 0
  {
    if '1' <= At(t, 0) <= '9' {
      assert k > 0 && t[..k][0] == t[0];
      assert k < |t| ==> t[k..][0] == t[k];
    }
  }

  lemma SoundNumber(s: string) returns (d: Doc)
    requires At(s, 0) == '-' || IsDigit(At(s, 0))
    ensures Stands(s, d, ParseNumber(s))
  {
    var minus := At(s, 0) == '-';
    var t := if minus then s[1..] else s;
    var zero, digits := SoundMagnitude(t);
    d := Numeral(minus, zero, digits);
    SoundSigned(s, d, t);
  }

  lemma SoundSigned(s: string, d: Doc, t: string)
    requires d.Numeral? && d.negative == (At(s, 0) == '-') && t == (if d.negative then s[1..] else s)
    requires IsNumeral(d.negative, d.zero, d.digits) && EndsAt(d, Magnitude(t).1)
    requires t == (if d.zero then "0" else "") + d.digits + Magnitude(t).1 && Magnitude(t).0 == Accumulate(d.digits)
    ensures Stands(s, d, ParseNumber(s))
  {
    var m := Magnitude(t);
    NumberUnfold(s, d.negative, t, m);
    SignedStands(s, d, t, m, ParseNumber(s));
  }

  lemma SignedStands(s: string, d: Doc, t: string, m: (int, string), r: Parsed<Value>)
    requires d.Numeral? && IsNumeral(d.negative, d.zero, d.digits) && EndsAt(d, m.1)
    requires t == (if d.negative then Drop(s, 1) else s) && (d.negative ==> At(s, 0) == '-')
    requires t == (if d.zero then "0" else "") + d.digits + m.1 && m.0 == Accumulate(d.digits)
    requires r == Ok(Number(Wrap(if d.negative then -m.0 else m.0), 0), m.1)
    ensures Stands(s, d, r)
  {
    NumberText(s, d.negative, if d.zero then "0" else "", d.digits, m.1, t);
    AccumulatedValue(d.negative, d.digits);
    NumeralStands(s, d, m.1);
  }

  lemma NumeralStands(s: string, d: Doc, rest: string)
    requires d.Numeral? && IsNumeral(d.negative, d.zero, d.digits) && EndsAt(d, rest)
    requires s == (if d.negative then "-" else "") + ((if d.zero then "0" else "") + d.digits) + rest
    ensures Stands(s, d, Ok(Number(NumeralValue(d.negative, d.digits), 0), rest))
  {}

  lemma NumberUnfold(s: string, minus: bool, t: string, m: (int, string))
    requires minus == (At(s, 0) == '-') && t == (if minus then s[1..] else s) && m == Magnitude(t)
    ensures ParseNumber(s) == Ok(Number(Wrap(if minus then -m.0 else m.0), 0), m.1)
  {}

  lemma NumberText(s: string, minus: bool, z: string, digits: string, rest: string, t: string)
    requires t == (if minus then Drop(s, 1) else s) && (minus ==> At(s, 0) == '-') && t == z + digits + rest
    ensures s == (if minus then "-" else "") + (z + digits) + rest
  {
    if minus {
      assert s == "-" + t;
      Associative("-", z + digits, rest);
    }
  }

  lemma AccumulatedValue(minus: bool, digits: string)
    requires AllDigits(digits)
    ensures Wrap(if minus then -Accumulate(digits) else Accumulate(digits)) == NumeralValue(minus, digits)
  {
    JsonRoundTrip.AccumulateValue(digits);
    G.WrapWrap(ValueOf(digits));
  }

  // Literals

  lemma SoundLiteral(s: string) returns (ps: seq<Part>, closed: bool)
    requires ParseLiteral(s).Ok?
    ensures var r := ParseLiteral(s);
            && s == PartsText(ps) + ((if closed then "\"" else "") + r.rest) && AllPermitted(ps)
            && r.value == PartsBytes(ps) && (!closed ==> At(r.rest, 0) == '\0')
  {
    var rest;
    ps, closed, rest := LiteralParts(s);
  }

  lemma QuotedText(s: string, ps: seq<Part>, closed: bool, rest: string)
    requires At(s, 0) == '"' && s[1..] == PartsText(ps) + ((if closed then "\"" else "") + rest)
    ensures s == LiteralText(ps, closed) + rest
  {
    var q := if closed then "\"" else "";
    assert s == "\"" + s[1..];
    Associative(PartsText(ps), q, rest);
    Associative("\"", PartsText(ps) + q, rest);
  }

  // Documents

  /** The document at the start of `s`, for the outcome `r` of parsing. */
  ghost predicate Stands(s: string, d: Doc, r: Parsed<Value>) {
    r.Ok? && Formed(d, false) && EndsAt(d, r.rest) && s == DocText(d) + r.rest && Meaning(d) == r.value
  }

  lemma SoundWord(s: string, d: Doc, n: nat)
    requires d.Word? && WordText(d.value) <= s && n == |WordText(d.value)|
    ensures s == DocText(d) + s[n..]
  {}

  /** Whatever is accepted is a document of the grammar and is taken for its meaning. */
  lemma {:induction false} SoundValue(s: string) returns (d: Doc)
    requires ParseValue(s).Ok?
    ensures Stands(s, d, ParseValue(s))
    decreases |s|, 3
  {
    if "null" <= s {
      d := Word(Null);
      SoundWord(s, d, 4);
    } else if "false" <= s {
      d := Word(False);
      SoundWord(s, d, 5);
    } else if "true" <= s {
      d := Word(True);
      SoundWord(s, d, 4);
    } else if At(s, 0) == '"' {
      var ps, closed := SoundLiteral(s[1..]);
      d := Literal(ps, closed);
      QuotedText(s, ps, closed, ParseLiteral(s[1..]).rest);
    } else if At(s, 0) == '-' || IsDigit(At(s, 0)) {
      d := SoundNumber(s);
    } else if At(s, 0) == '[' {
      d := SoundList(s);
    } else {
      d := SoundTable(s);
    }
  }

  /** A bracket, something, and what the recursion found behind it. */
  lemma Bracketed(s: string, open: char, body: string, close: char, rest: string)
    requires At(s, 0) == open != '\0' && s[1..] == body + ([close] + rest)
    ensures s == [open] + (body + [close]) + rest
  {
    assert s == [open] + s[1..];
    Associative(body, [close], rest);
    Associative([open], body + [close], rest);
  }

  lemma {:induction false} SkipTwice(s: string)
    ensures Skip(Skip(s)) == Skip(s)
  {
    if s != [] && s[0] != '\0' && s[0] <= ' ' {
      SkipTwice(s[1..]);
    }
  }

  lemma {:induction false} SoundList(s: string) returns (d: Doc)
    requires At(s, 0) == '[' && ParseArray(Skip(s[1..])).Ok?
    ensures Stands(s, d, ParseArray(Skip(s[1..])))
    decreases |s|, 2
  {
    var t := Skip(s[1..]);
    if At(t, 0) == ']' {
      var g := SkipSplit(s[1..]);
      d := List([], g);
      HeadTail(t, ']');
      Bracketed(s, '[', GapText(g), ']', t[1..]);
    } else {
      SkipTwice(s[1..]);
      JsonRoundTrip.ItemsSkip(s[1..], t);
      var items := SoundItems(s[1..]);
      d := List(items, []);
      ListStands(s, items, ParseItems(t), ParseArray(t));
    }
  }

  lemma ListStands(s: string, items: seq<Item>, es: Parsed<seq<Value>>, r: Parsed<Value>)
    requires At(s, 0) == '[' && FormedItems(items) && es.Ok? && r == Ok(Array(es.value), es.rest)
    requires s[1..] == ListText(items) + ("]" + es.rest) && ItemMeanings(items) == es.value
    ensures Stands(s, List(items, []), r)
  {
    Bracketed(s, '[', ListText(items), ']', es.rest);
  }

  ghost predicate FormedItems(items: seq<Item>) {
    items != [] && forall i :: 0 <= i < |items| ==> FormedItem(items[i], false)
  }

  /** An accepted value that a comma or bracket follows is ended. */
  lemma EndedBefore(d: Doc, rest: string)
    requires EndsAt(d, rest) && At(Skip(rest), 0) > ' '
    ensures Ended(d)
  {}

  lemma ItemsUnfold(s: string, v: Parsed<Value>, u: string)
    requires v == ParseValue(Skip(s)) && ParseItems(s).Ok? && (v.Ok? ==> u == Skip(v.rest))
    ensures v.Ok? && ParseItems(s) == ItemsAfter(v.value, u)
  {}

  lemma {:induction false} SoundItems(s: string) returns (items: seq<Item>)
    requires ParseItems(s).Ok?
    ensures var r := ParseItems(s);
            FormedItems(items) && s == ListText(items) + ("]" + r.rest) && ItemMeanings(items) == r.value
    decreases |s|, 5
  {
    var t, v := Skip(s), ParseValue(Skip(s));
    var u := if v.Ok? then Skip(v.rest) else "";
    ItemsUnfold(s, v, u);
    var item := SoundItem(s, t, v, u);
    if At(u, 0) == ',' {
      var more := SoundItems(u[1..]);
      items := [item] + more;
      ItemTexts(s, item, u, more, "]" + ParseItems(s).rest);
    } else {
      items := [item];
      HeadTail(u, ']');
      ItemTexts(s, item, u, [], u);
      G.LastItemMeaning(items);
    }
  }

  /** One item with the gaps around it. */
  lemma SoundItem(s: string, t: string, v: Parsed<Value>, u: string) returns (item: Item)
    requires t == Skip(s) && v == ParseValue(t) && v.Ok? && u == Skip(v.rest) && At(u, 0) > ' '
    ensures FormedItem(item, false) && Meaning(item.doc) == v.value
    ensures s == GapText(item.before) + (DocText(item.doc) + (GapText(item.after) + u))
    decreases |s|, 4
  {
    var g := SkipSplit(s);
    var d := SoundValue(t);
    var h := SkipSplit(v.rest);
    EndedBefore(d, v.rest);
    item := Item(g, d, h);
  }

  lemma ItemTexts(s: string, i: Item, u: string, more: seq<Item>, close: string)
    requires s == GapText(i.before) + (DocText(i.doc) + (GapText(i.after) + u))
    requires if more == [] then u == close else At(u, 0) == ',' && u[1..] == ListText(more) + close
    ensures s == ListText([i] + more) + close && ([i] + more)[1..] == more
  {
    if more != [] {
      HeadTail(u, ',');
    }
    FollowedItems(s, i, u, more, [i] + more, close);
  }

  lemma FollowedItems(s: string, i: Item, u: string, more: seq<Item>, items: seq<Item>, close: string)
    requires s == GapText(i.before) + (DocText(i.doc) + (GapText(i.after) + u)) && items == [i] + more
    requires u == if more == [] then close else "," + (ListText(more) + close)
    ensures s == ListText(items) + close && items[1..] == more
  {
    assert items[1..] == more;
    G.OneItemText(items, close, u);
  }

  lemma HeadTail(u: string, c: char)
    requires At(u, 0) == c != '\0'
    ensures u == [c] + u[1..]
  {}

  lemma {:induction false} SoundTable(s: string) returns (d: Doc)
    requires At(s, 0) == '{' && ParseObject(Skip(s[1..])).Ok?
    ensures Stands(s, d, ParseObject(Skip(s[1..])))
    decreases |s|, 2
  {
    var t := Skip(s[1..]);
    if At(t, 0) == '}' {
      var g := SkipSplit(s[1..]);
      d := Table([], g);
      HeadTail(t, '}');
      Bracketed(s, '{', GapText(g), '}', t[1..]);
    } else {
      SkipTwice(s[1..]);
      JsonRoundTrip.MembersSkip(s[1..], t);
      var entries := SoundEntries(s[1..]);
      d := Table(entries, []);
      TableStands(s, entries, ParseMembers(t), ParseObject(t));
    }
  }

  lemma TableStands(s: string, entries: seq<Entry>, ms: Parsed<seq<Member>>, r: Parsed<Value>)
    requires At(s, 0) == '{' && FormedEntries(entries) && ms.Ok? && r == Ok(Object(ms.value), ms.rest)
    requires s[1..] == TableText(entries) + ("}" + ms.rest) && EntryMeanings(entries) == ms.value
    ensures Stands(s, Table(entries, []), r)
  {
    Bracketed(s, '{', TableText(entries), '}', ms.rest);
  }

  ghost predicate FormedEntries(entries: seq<Entry>) {
    entries != [] && forall i :: 0 <= i < |entries| ==> FormedEntry(entries[i], false)
  }

  /** A name and its colon. */
  lemma SoundName(s: string) returns (before: Gap, name: seq<Part>, mid: Gap, gap: Gap)
    requires ParseName(s).Ok?
    ensures var r := ParseName(s);
            && Blank(before) && Blank(mid) && Blank(gap) && AllPermitted(name) && r.value == PartsBytes(name)
            && s == GapText(before) + (LiteralText(name, true) + (GapText(mid) + (":" + (GapText(gap) + r.rest))))
  {
    before := SkipSplit(s);
    var t := Skip(s);
    var closed;
    name, closed := SoundLiteral(t[1..]);
    var lit := ParseLiteral(t[1..]);
    mid := SkipSplit(lit.rest);
    var u := Skip(lit.rest);
    HeadTail(u, ':');
    gap := SkipSplit(u[1..]);
    assert closed;
    QuotedText(t, name, true, lit.rest);
  }

  lemma MembersUnfold(s: string, n: Parsed<string>, v: Parsed<Value>, u: string)
    requires n == ParseName(s) && ParseMembers(s).Ok? && (n.Ok? ==> v == ParseValue(n.rest))
    requires n.Ok? && v.Ok? ==> u == Skip(v.rest)
    ensures n.Ok? && v.Ok? && ParseMembers(s) == MembersAfter(Member(n.value, v.value), u)
  {
    assert n.Ok?;
    assert ParseMembers(s) == ParseNamed(n.value, n.rest);
  }

  lemma {:induction false} SoundEntries(s: string) returns (entries: seq<Entry>)
    requires ParseMembers(s).Ok?
    ensures var r := ParseMembers(s);
            FormedEntries(entries) && s == TableText(entries) + ("}" + r.rest) && EntryMeanings(entries) == r.value
    decreases |s|, 5
  {
    var n := ParseName(s);
    var v := if n.Ok? then ParseValue(n.rest) else Fail;
    var u := if v.Ok? then Skip(v.rest) else "";
    MembersUnfold(s, n, v, u);
    var e := SoundEntry(s, n, v, u);
    if At(u, 0) == ',' {
      var more := SoundEntries(u[1..]);
      entries := [e] + more;
      EntryTexts(s, e, u, more, "}" + ParseMembers(s).rest);
    } else {
      entries := [e];
      HeadTail(u, '}');
      EntryTexts(s, e, u, [], u);
      G.LastEntryMeaning(entries);
    }
  }

  /** One entry with the gaps around its tokens. */
  lemma SoundEntry(s: string, n: Parsed<string>, v: Parsed<Value>, u: string) returns (e: Entry)
    requires n == ParseName(s) && n.Ok? && v == ParseValue(n.rest) && v.Ok? && u == Skip(v.rest) && At(u, 0) > ' '
    ensures FormedEntry(e, false) && PartsBytes(e.name) == n.value && Meaning(e.doc) == v.value
    ensures s == GapText(e.before) + G.NamedText(e, u)
    decreases |s|, 4
  {
    var before, name, mid, gap := SoundName(s);
    var d := SoundValue(n.rest);
    var after := SkipSplit(v.rest);
    EndedBefore(d, v.rest);
    e := Entry(before, name, mid, gap, d, after);
  }

  lemma EntryTexts(s: string, e: Entry, u: string, more: seq<Entry>, close: string)
    requires s == GapText(e.before) + G.NamedText(e, u)
    requires if more == [] then u == close else At(u, 0) == ',' && u[1..] == TableText(more) + close
    ensures s == TableText([e] + more) + close && ([e] + more)[1..] == more
  {
    if more != [] {
      HeadTail(u, ',');
    }
    FollowedEntries(s, e, u, more, [e] + more, close);
  }

  lemma FollowedEntries(s: string, e: Entry, u: string, more: seq<Entry>, entries: seq<Entry>, close: string)
    requires s == GapText(e.before) + G.NamedText(e, u) && entries == [e] + more
    requires u == if more == [] then close else "," + (TableText(more) + close)
    ensures s == TableText(entries) + close && entries[1..] == more
  {
    assert entries[1..] == more;
    G.OneEntryText(entries, close, u);
  }
}
