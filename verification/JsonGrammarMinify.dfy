/** `cJSON_Minify` on texts of the grammar: it removes exactly the gaps, comments included. */
module JsonGrammarMinify {
  import opened Common
  import opened Decimal
  import opened JsonLiteral
  import opened JsonLenient
  import opened JsonText
  import opened JsonUnicode
  import opened JsonMinify
  import opened JsonGrammar
  import JsonGrammarParse

  /** What may stand in a gap: spaces as the minifier knows them, line comments, and block comments that the code
      does not take for closed before their end. */
  ghost predicate Ignorable(t: Trivium) {
    match t
    case Space(c) => c == ' ' || c == '\t' || c == '\r' || c == '\n'
    case LineComment(text) => '\n' !in text
    case BlockComment(text) => (text != [] ==> text[0] != '/') && NoClose(text)
  }

  ghost predicate NoClose(s: string) {
    forall i :: 0 < i < |s| ==> !(s[i - 1] == '*' && s[i] == '/')
  }

  ghost predicate IgnorableGap(g: Gap) { forall i :: 0 <= i < |g| ==> Ignorable(g[i]) }

  /** Documents with well-formed literals and ignorable gaps. */
  ghost predicate Commented(d: Doc)
    decreases d
  {
    match d
    case Word(v) => v.Null? || v.True? || v.False?
    case Numeral(negative, zero, digits) => IsNumeral(negative, zero, digits)
    case Literal(parts, closed) => StrictParts(parts) && closed
    case List(items, inner) => IgnorableGap(inner) && forall i :: 0 <= i < |items| ==> CommentedItem(items[i])
    case Table(entries, inner) => IgnorableGap(inner) && forall i :: 0 <= i < |entries| ==> CommentedEntry(entries[i])
  }

  ghost predicate CommentedItem(i: Item)
    decreases i
  {
    IgnorableGap(i.before) && IgnorableGap(i.after) && Commented(i.doc)
  }

  ghost predicate CommentedEntry(e: Entry)
    decreases e
  {
    && IgnorableGap(e.before) && IgnorableGap(e.mid) && IgnorableGap(e.gap) && IgnorableGap(e.after)
    && StrictParts(e.name) && Commented(e.doc)
  }

  /** The document without its gaps. */
  function Compact(d: Doc): Doc
    decreases d, 1
  {
    match d
    case List(items, _) => List(CompactItems(items), [])
    case Table(entries, _) => Table(CompactEntries(entries), [])
    case _ => d
  }

  function CompactItems(items: seq<Item>): (r: seq<Item>)
    ensures |r| == |items|
    decreases items, 0
  {
    if items == [] then [] else [Item([], Compact(items[0].doc), [])] + CompactItems(items[1..])
  }

  function CompactEntries(entries: seq<Entry>): (r: seq<Entry>)
    ensures |r| == |entries|
    decreases entries, 0
  {
    if entries == [] then []
    else [Entry([], entries[0].name, [], [], Compact(entries[0].doc), [])] + CompactEntries(entries[1..])
  }

  // Gaps

  lemma {:induction false} AfterLineStops(c: string, rest: string)
    requires '\n' !in c
    ensures AfterLine(c + ("\n" + rest)) == "\n" + rest
  {
    var s := c + ("\n" + rest);
    if c == [] {
      assert s == "\n" + rest;
    } else {
      AfterLineStops(c[1..], rest);
      assert s[1..] == c[1..] + ("\n" + rest);
    }
  }

  lemma {:induction false} AfterBlockStops(c: string, rest: string)
    requires NoClose(c)
    ensures var s := c + ("*/" + rest); AfterBlock(s) == rest && BlockCloses(s)
  {
    var s := c + ("*/" + rest);
    if c == [] {
      assert s == "*/" + rest;
    } else {
      AfterBlockStops(c[1..], rest);
      assert s[1..] == c[1..] + ("*/" + rest);
      assert At(s, 1) == (if |c| > 1 then c[1] else '*');
    }
  }

  /** A line comment is removed up to and with its end of line. */
  lemma LineVanishes(c: string, rest: string)
    requires '\n' !in c
    ensures Shrinks("//" + c + "\n", "", rest)
  {
    var s := "//" + c + "\n" + rest;
    AfterLineStops("/" + c, rest);
    assert s[1..] == "/" + c + ("\n" + rest);
    SpaceVanishes("\n", rest);
    assert "" + Minify(rest) == Minify(rest);
  }

  /** A block comment is removed with its end. */
  lemma BlockVanishes(c: string, rest: string)
    requires (c != [] ==> c[0] != '/') && NoClose(c)
    ensures Shrinks("/*" + c + "*/", "", rest)
  {
    var s := "/*" + c + "*/" + rest;
    assert NoClose("*" + c);
    AfterBlockStops("*" + c, rest);
    assert s[1..] == "*" + c + ("*/" + rest);
    assert "" + Minify(rest) == Minify(rest);
  }

  lemma TriviumVanishes(t: Trivium, rest: string)
    requires Ignorable(t)
    ensures Shrinks(TriviumText(t), "", rest)
  {
    match t
    case Space(c) => SpaceVanishes([c], rest);
    case LineComment(text) => LineVanishes(text, rest);
    case BlockComment(text) => BlockVanishes(text, rest);
  }

  lemma {:induction false} GapVanishes(g: Gap, rest: string)
    requires IgnorableGap(g)
    ensures Shrinks(GapText(g), "", rest)
  {
    if g == [] {
      PlainStays("", rest);
    } else {
      GapVanishes(g[1..], rest);
      TriviumVanishes(g[0], GapText(g[1..]) + rest);
      ShrinksAppend(TriviumText(g[0]), "", GapText(g[1..]), "", rest);
      assert "" + "" == "";
    }
  }

  // Tokens

  lemma LiteralPiece(p: Piece, t: string)
    requires WellFormed(p)
    ensures MinifyLiteral(Text(p) + t) == Text(p) + MinifyLiteral(t)
    ensures LiteralCloses(t) ==> LiteralCloses(Text(p) + t)
  {
    match p
    case Raw(c) => LiteralPlain(c, t, [c] + t);
    case Short(e) =>
      var s := ['\\', e] + t;
      assert s[2..] == t && s[..2] == ['\\', e];
    case Scalar(c, high, low) =>
      if c < 0x10000 {
        LiteralUnit(high, c, t);
      } else {
        Associative(Unit(high), Unit(low), t);
        LiteralUnit(low, LowUnit(c), t);
        LiteralUnit(high, HighUnit(c), Unit(low) + t);
        Associative(Unit(high), Unit(low), MinifyLiteral(t));
      }
  }

  lemma LiteralUnit(h: string, u: nat, t: string)
    requires Spells(h, u)
    ensures MinifyLiteral(Unit(h) + t) == Unit(h) + MinifyLiteral(t)
    ensures LiteralCloses(t) ==> LiteralCloses(Unit(h) + t)
  {
    SpellsHex4(h, u);
    forall i | 2 <= i < 6 ensures Unit(h)[i] != '"' && Unit(h)[i] != '\\' {
      assert Unit(h)[i] == h[i - 2];
    }
    LiteralControl(Unit(h), t);
  }

  lemma {:induction false} PartsStay(ps: seq<Part>, t: string)
    requires StrictParts(ps)
    ensures MinifyLiteral(PartsText(ps) + t) == PartsText(ps) + MinifyLiteral(t)
    ensures LiteralCloses(t) ==> LiteralCloses(PartsText(ps) + t)
  {
    if ps == [] {
      assert "" + t == t && "" + MinifyLiteral(t) == MinifyLiteral(t);
    } else {
      PartsStay(ps[1..], t);
      Associative(PartText(ps[0]), PartsText(ps[1..]), t);
      LiteralPiece(ps[0].piece, PartsText(ps[1..]) + t);
      Associative(PartText(ps[0]), PartsText(ps[1..]), MinifyLiteral(t));
    }
  }

  lemma LiteralTextStays(ps: seq<Part>, rest: string)
    requires StrictParts(ps)
    ensures Shrinks(LiteralText(ps, true), LiteralText(ps, true), rest)
  {
    var p, close := PartsText(ps), "\"" + rest;
    PartsStay(ps, close);
    Associative("\"", p + "\"", rest);
    Associative(p, "\"", rest);
    assert close[1..] == rest && ("\"" + (p + close))[1..] == p + close;
    Associative("\"", p + "\"", Minify(rest));
    Associative(p, "\"", Minify(rest));
  }

  lemma NumeralStays(negative: bool, zero: bool, digits: string, rest: string)
    requires IsNumeral(negative, zero, digits)
    ensures Shrinks(NumeralText(negative, zero, digits), NumeralText(negative, zero, digits), rest)
  {
    var s := NumeralText(negative, zero, digits);
    assert forall i :: 0 <= i < |s| ==> s[i] == '-' || IsDigit(s[i]);
    PlainStays(s, rest);
  }

  // Documents

  /** Two neighbours, with their shrunken forms. */
  lemma Next(s: string, m: string, s': string, m': string, rest: string)
    requires Shrinks(s, m, s' + rest) && Shrinks(s', m', rest)
    ensures Shrinks(s + s', m + m', rest)
  {
    ShrinksAppend(s, m, s', m', rest);
  }

  lemma GapThen(g: Gap, s: string, m: string, rest: string)
    requires IgnorableGap(g) && Shrinks(s, m, rest)
    ensures Shrinks(GapText(g) + s, GapText([]) + m, rest)
  {
    GapVanishes(g, s + rest);
    Next(GapText(g), "", s, m, rest);
  }

  /** Minifying a document in front of anything leaves the document without its gaps. */
  lemma {:induction false} DocShrinks(d: Doc, rest: string)
    requires Commented(d)
    ensures Shrinks(DocText(d), DocText(Compact(d)), rest)
    decreases d, 2
  {
    match d
    case Word(v) => PlainStays(WordText(v), rest);
    case Numeral(negative, zero, digits) => NumeralStays(negative, zero, digits, rest);
    case Literal(parts, closed) => LiteralTextStays(parts, rest);
    case List(items, inner) => ListShrinks(items, inner, rest);
    case Table(entries, inner) => TableShrinks(entries, inner, rest);
  }

  lemma Enclosed(open: string, body: string, m: string, close: string, rest: string)
    requires (open == "[" && close == "]") || (open == "{" && close == "}")
    requires Shrinks(body, m, close + rest)
    ensures Shrinks(open + (body + close), open + (m + close), rest)
  {
    PlainStays(close, rest);
    Next(body, m, close, close, rest);
    PlainStays(open, body + close + rest);
    Next(open, open, body + close, m + close, rest);
  }

  lemma {:induction false} ListShrinks(items: seq<Item>, inner: Gap, rest: string)
    requires Commented(List(items, inner))
    ensures Shrinks(DocText(List(items, inner)), DocText(Compact(List(items, inner))), rest)
    decreases items, 1
  {
    if items == [] {
      GapVanishes(inner, "]" + rest);
      Enclosed("[", GapText(inner), "", "]", rest);
    } else {
      ItemsShrinkTo(items, "]" + rest);
      Enclosed("[", ListText(items), ListText(CompactItems(items)), "]", rest);
    }
  }

  lemma {:induction false} ItemsShrinkTo(items: seq<Item>, rest: string)
    requires items != [] && forall i :: 0 <= i < |items| ==> CommentedItem(items[i])
    ensures Shrinks(ListText(items), ListText(CompactItems(items)), rest)
    decreases items, 0
  {
    var i, few := items[0], CompactItems(items);
    assert few[1..] == CompactItems(items[1..]);
    var more, less := "", "";
    if |items| == 1 {
      PlainStays("", rest);
    } else {
      more, less := "," + ListText(items[1..]), "," + ListText(few[1..]);
      ItemsShrinkTo(items[1..], rest);
      PlainStays(",", ListText(items[1..]) + rest);
      Next(",", ",", ListText(items[1..]), ListText(few[1..]), rest);
    }
    DocShrinks(i.doc, GapText(i.after) + more + rest);
    ItemShrinks(i, more, less, rest);
  }

  lemma ItemShrinks(i: Item, more: string, less: string, rest: string)
    requires IgnorableGap(i.before) && IgnorableGap(i.after) && Shrinks(more, less, rest)
    requires Shrinks(DocText(i.doc), DocText(Compact(i.doc)), GapText(i.after) + more + rest)
    ensures Shrinks(GapText(i.before) + (DocText(i.doc) + (GapText(i.after) + more)),
                    GapText([]) + (DocText(Compact(i.doc)) + (GapText([]) + less)), rest)
  {
    GapThen(i.after, more, less, rest);
    Next(DocText(i.doc), DocText(Compact(i.doc)), GapText(i.after) + more, GapText([]) + less, rest);
    GapThen(i.before, DocText(i.doc) + (GapText(i.after) + more), DocText(Compact(i.doc)) + (GapText([]) + less), rest);
  }

  lemma {:induction false} TableShrinks(entries: seq<Entry>, inner: Gap, rest: string)
    requires Commented(Table(entries, inner))
    ensures Shrinks(DocText(Table(entries, inner)), DocText(Compact(Table(entries, inner))), rest)
    decreases entries, 1
  {
    if entries == [] {
      GapVanishes(inner, "}" + rest);
      Enclosed("{", GapText(inner), "", "}", rest);
    } else {
      EntriesShrinkTo(entries, "}" + rest);
      Enclosed("{", TableText(entries), TableText(CompactEntries(entries)), "}", rest);
    }
  }

  lemma {:induction false} EntriesShrinkTo(entries: seq<Entry>, rest: string)
    requires entries != [] && forall i :: 0 <= i < |entries| ==> CommentedEntry(entries[i])
    ensures Shrinks(TableText(entries), TableText(CompactEntries(entries)), rest)
    decreases entries, 0
  {
    var e, few := entries[0], CompactEntries(entries);
    assert few[1..] == CompactEntries(entries[1..]);
    var more, less := "", "";
    if |entries| == 1 {
      PlainStays("", rest);
    } else {
      more, less := "," + TableText(entries[1..]), "," + TableText(few[1..]);
      EntriesShrinkTo(entries[1..], rest);
      PlainStays(",", TableText(entries[1..]) + rest);
      Next(",", ",", TableText(entries[1..]), TableText(few[1..]), rest);
    }
    DocShrinks(e.doc, GapText(e.after) + more + rest);
    EntryShrinks(e, more, less, rest);
  }

  lemma EntryShrinks(e: Entry, more: string, less: string, rest: string)
    requires CommentedEntry(e) && Shrinks(more, less, rest)
    requires Shrinks(DocText(e.doc), DocText(Compact(e.doc)), GapText(e.after) + more + rest)
    ensures Shrinks(GapText(e.before) + (LiteralText(e.name, true) + (GapText(e.mid) + (":" + (GapText(e.gap) +
                      (DocText(e.doc) + (GapText(e.after) + more)))))),
                    GapText([]) + (LiteralText(e.name, true) + (GapText([]) + (":" + (GapText([]) +
                      (DocText(Compact(e.doc)) + (GapText([]) + less)))))), rest)
  {
    var i := Item(e.gap, e.doc, e.after);
    ItemShrinks(i, more, less, rest);
    var v := GapText(e.gap) + (DocText(e.doc) + (GapText(e.after) + more));
    var w := GapText([]) + (DocText(Compact(e.doc)) + (GapText([]) + less));
    PlainStays(":", v + rest);
    Next(":", ":", v, w, rest);
    GapThen(e.mid, ":" + v, ":" + w, rest);
    LiteralTextStays(e.name, GapText(e.mid) + (":" + v) + rest);
    Next(LiteralText(e.name, true), LiteralText(e.name, true), GapText(e.mid) + (":" + v), GapText([]) + (":" + w), rest);
    GapThen(e.before, LiteralText(e.name, true) + (GapText(e.mid) + (":" + v)),
            LiteralText(e.name, true) + (GapText([]) + (":" + w)), rest);
  }

  /** A whole text with gaps and comments anywhere between its tokens minifies to the bare tokens. */
  lemma MinifyRemovesGaps(lead: Gap, d: Doc, trail: Gap)
    requires IgnorableGap(lead) && IgnorableGap(trail) && Commented(d)
    ensures var s := GapText(lead) + (DocText(d) + GapText(trail));
            Minify(s) == DocText(Compact(d)) && Closed(s)
  {
    var s, m := DocText(d) + GapText(trail), DocText(Compact(d));
    GapVanishes(trail, "");
    DocShrinks(d, GapText(trail) + "");
    Next(DocText(d), m, GapText(trail), "", "");
    GapVanishes(lead, s + "");
    Next(GapText(lead), "", s, m + "", "");
    assert m + "" == m && "" + m == m && m + Minify("") == m;
    assert GapText(lead) + s + "" == GapText(lead) + s;
  }

  // What is left still means the same

  lemma {:induction false} CompactMeans(d: Doc)
    requires Commented(d)
    ensures Formed(Compact(d), true) && Meaning(Compact(d)) == Meaning(d)
    decreases d, 2
  {
    match d
    case List(items, inner) => CompactItemsMean(items);
    case Table(entries, inner) => CompactEntriesMean(entries);
    case _ =>
  }

  lemma {:induction false} CompactItemsMean(items: seq<Item>)
    requires forall i :: 0 <= i < |items| ==> CommentedItem(items[i])
    ensures forall i :: 0 <= i < |items| ==> FormedItem(CompactItems(items)[i], true)
    ensures ItemMeanings(CompactItems(items)) == ItemMeanings(items)
    decreases items, 0
  {
    if items != [] {
      CompactMeans(items[0].doc);
      CompactItemsMean(items[1..]);
      assert CompactItems(items)[1..] == CompactItems(items[1..]);
    }
  }

  lemma {:induction false} CompactEntriesMean(entries: seq<Entry>)
    requires forall i :: 0 <= i < |entries| ==> CommentedEntry(entries[i])
    ensures forall i :: 0 <= i < |entries| ==> FormedEntry(CompactEntries(entries)[i], true)
    ensures EntryMeanings(CompactEntries(entries)) == EntryMeanings(entries)
    decreases entries, 0
  {
    if entries != [] {
      CompactMeans(entries[0].doc);
      CompactEntriesMean(entries[1..]);
      assert CompactEntries(entries)[1..] == CompactEntries(entries[1..]);
    }
  }

  /** So a commented text, minified, parses to what it stands for. */
  lemma MinifiedTextParses(lead: Gap, d: Doc, trail: Gap, requireEnd: bool)
    requires IgnorableGap(lead) && IgnorableGap(trail) && Commented(d)
    ensures ParseDocument(Minify(GapText(lead) + (DocText(d) + GapText(trail))), requireEnd) == Ok(Meaning(d), "")
  {
    MinifyRemovesGaps(lead, d, trail);
    CompactMeans(d);
    JsonGrammarParse.ParseWholeText([], Compact(d), [], requireEnd);
    var m := DocText(Compact(d));
    assert "" + (m + "") == m;
  }
}
