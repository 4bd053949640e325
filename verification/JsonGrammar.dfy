/** JSON texts as section 2 of RFC 8259 describes them, told without a parser: a text is a tree of tokens with
    gaps between them, and stands for a value. Comments, which `cJSON_Minify` removes, may stand in gaps as well. */
module JsonGrammar {
  import opened Common
  import opened Decimal
  import opened JsonLiteral
  import opened JsonLenient
  import opened JsonText
  import opened JsonUnicode

  datatype Trivium = Space(c: char) | LineComment(text: string) | BlockComment(text: string)

  type Gap = seq<Trivium>

  datatype Doc =
    | Word(value: Value)
    | Numeral(negative: bool, zero: bool, digits: string)
    | Literal(parts: seq<Part>, closed: bool)
    | List(items: seq<Item>, inner: Gap)
    | Table(entries: seq<Entry>, inner: Gap)

  datatype Item = Item(before: Gap, doc: Doc, after: Gap)

  datatype Entry = Entry(before: Gap, name: seq<Part>, mid: Gap, gap: Gap, doc: Doc, after: Gap)

  // Texts

  function TriviumText(t: Trivium): string {
    match t
    case Space(c) => [c]
    case LineComment(text) => "//" + text + "\n"
    case BlockComment(text) => "/*" + text + "*/"
  }

  function GapText(g: Gap): string {
    if g == [] then "" else TriviumText(g[0]) + GapText(g[1..])
  }

  function WordText(v: Value): string {
    match v
    case Null => "null"
    case True => "true"
    case False => "false"
    case _ => ""
  }

  function NumeralText(negative: bool, zero: bool, digits: string): string {
    (if negative then "-" else "") + ((if zero then "0" else "") + digits)
  }

  function LiteralText(parts: seq<Part>, closed: bool): string {
    "\"" + (PartsText(parts) + (if closed then "\"" else ""))
  }

  function DocText(d: Doc): string
    decreases d, 1
  {
    match d
    case Word(v) => WordText(v)
    case Numeral(negative, zero, digits) => NumeralText(negative, zero, digits)
    case Literal(parts, closed) => LiteralText(parts, closed)
    case List(items, inner) => "[" + ((if items == [] then GapText(inner) else ListText(items)) + "]")
    case Table(entries, inner) => "{" + ((if entries == [] then GapText(inner) else TableText(entries)) + "}")
  }

  function ListText(items: seq<Item>): string
    requires items != []
    decreases items, 0
  {
    var i := items[0];
    GapText(i.before) + (DocText(i.doc) + (GapText(i.after) + (if |items| == 1 then "" else "," + ListText(items[1..]))))
  }

  function TableText(entries: seq<Entry>): string
    requires entries != []
    decreases entries, 0
  {
    var e := entries[0];
    GapText(e.before) + (LiteralText(e.name, true) + (GapText(e.mid) + (":" + (GapText(e.gap) + (DocText(e.doc) +
      (GapText(e.after) + (if |entries| == 1 then "" else "," + TableText(entries[1..]))))))))
  }

  // Values

  function NumeralValue(negative: bool, digits: string): int
    requires AllDigits(digits)
  {
    var n: int := ValueOf(digits);
    Wrap(if negative then -n else n)
  }

  function Meaning(d: Doc): Value
    decreases d, 1
  {
    match d
    case Word(v) => v
    case Numeral(negative, _, digits) => if AllDigits(digits) then Number(NumeralValue(negative, digits), 0) else Null
    case Literal(parts, _) => String(PartsBytes(parts))
    case List(items, _) => Array(ItemMeanings(items))
    case Table(entries, _) => Object(EntryMeanings(entries))
  }

  function ItemMeanings(items: seq<Item>): seq<Value>
    decreases items, 0
  {
    if items == [] then [] else [Meaning(items[0].doc)] + ItemMeanings(items[1..])
  }

  function EntryMeanings(entries: seq<Entry>): seq<Member>
    decreases entries, 0
  {
    if entries == [] then []
    else [Member(PartsBytes(entries[0].name), Meaning(entries[0].doc))] + EntryMeanings(entries[1..])
  }

  // Forms

  /** White space: cJSON takes every character up to the space for it. */
  ghost predicate Blank(g: Gap) {
    forall i :: 0 <= i < |g| ==> g[i].Space? && '\0' < g[i].c <= ' '
  }

  predicate StrictParts(ps: seq<Part>) {
    forall i :: 0 <= i < |ps| ==> ps[i].Proper? && WellFormed(ps[i].piece)
  }

  /** Integers; besides those of RFC 8259, one zero may precede the digits and digits may be missing. */
  predicate IsNumeral(negative: bool, zero: bool, digits: string) {
    && AllDigits(digits) && (digits != [] ==> digits[0] != '0')
    && (negative || zero || digits != [])
  }

  /** Texts with well-formed literals, or with literals as cJSON accepts them; `Blank` gaps. */
  ghost predicate Formed(d: Doc, strict: bool)
    decreases d
  {
    match d
    case Word(v) => v.Null? || v.True? || v.False?
    case Numeral(negative, zero, digits) => IsNumeral(negative, zero, digits)
    case Literal(parts, closed) => FormedParts(parts, strict) && (strict ==> closed)
    case List(items, inner) =>
      && (items == [] ==> Blank(inner))
      && forall i :: 0 <= i < |items| ==> FormedItem(items[i], strict)
    case Table(entries, inner) =>
      && (entries == [] ==> Blank(inner))
      && forall i :: 0 <= i < |entries| ==> FormedEntry(entries[i], strict)
  }

  ghost predicate FormedParts(ps: seq<Part>, strict: bool) {
    if strict then StrictParts(ps) else AllPermitted(ps)
  }

  ghost predicate FormedItem(i: Item, strict: bool)
    decreases i
  {
    Blank(i.before) && Blank(i.after) && Formed(i.doc, strict) && Ended(i.doc)
  }

  ghost predicate FormedEntry(e: Entry, strict: bool)
    decreases e
  {
    && Blank(e.before) && Blank(e.mid) && Blank(e.gap) && Blank(e.after)
    && FormedParts(e.name, strict) && Formed(e.doc, strict) && Ended(e.doc)
  }

  predicate Ended(d: Doc) { d.Literal? ==> d.closed }

  /** The text behind a document does not continue it. */
  predicate EndsAt(d: Doc, rest: string) {
    match d
    case Numeral(_, zero, digits) =>
      if digits == [] && zero then !('1' <= At(rest, 0) <= '9') else !IsDigit(At(rest, 0))
    case Literal(_, closed) => closed || At(rest, 0) == '\0'
    case _ => true
  }
}
