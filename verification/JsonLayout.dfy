/** The printed layout, told by its lines. */
module JsonLayout {
  import opened Common
  import opened JsonLiteral
  import opened JsonText

  function Repeat(c: char, n: nat): string { seq(n, _ => c) }

  function JoinWith(sep: string, parts: seq<string>): string {
    if parts == [] then "" else if |parts| == 1 then parts[0] else parts[0] + sep + JoinWith(sep, parts[1..])
  }

  lemma {:induction false} TabsRepeat(n: nat)
    ensures Tabs(n) == Repeat('\t', n)
  {
    if n > 0 {
      TabsRepeat(n - 1);
      assert Repeat('\t', n) == "\t" + Repeat('\t', n - 1);
    }
  }

  /** The texts of the items of an array that is itself printed at `depth`. */
  function ItemTexts(items: seq<Value>, depth: nat, fmt: bool): seq<string> {
    seq(|items|, i requires 0 <= i < |items| => Print(items[i], depth + 1, fmt))
  }

  lemma {:induction false} ItemsJoined(items: seq<Value>, depth: nat, fmt: bool)
    requires items != []
    ensures PrintItems(items, depth + 1, fmt) == JoinWith(if fmt then ", " else ",", ItemTexts(items, depth, fmt))
  {
    var texts := ItemTexts(items, depth, fmt);
    if |items| > 1 {
      ItemsJoined(items[1..], depth, fmt);
      assert texts[1..] == ItemTexts(items[1..], depth, fmt);
      assert Separator(fmt) == if fmt then ", " else ",";
    }
  }

  /** Items stand on one line, separated by a comma and, when formatting, a space. */
  lemma ArrayLayout(items: seq<Value>, depth: nat, fmt: bool)
    ensures Print(Array(items), depth, fmt) ==
            "[" + JoinWith(if fmt then ", " else ",", ItemTexts(items, depth, fmt)) + "]"
  {
    if items != [] {
      ItemsJoined(items, depth, fmt);
    }
  }

  /** The line of a member of an object printed at `depth`, without its comma and line end. */
  function Line(m: Member, depth: nat, fmt: bool): string {
    (if fmt then Repeat('\t', depth + 1) else "") + Quoted(m.name) + (if fmt then ":\t" else ":") + Print(m.value, depth + 1, fmt)
  }

  function Lines(ms: seq<Member>, depth: nat, fmt: bool): seq<string> {
    seq(|ms|, i requires 0 <= i < |ms| => Line(ms[i], depth, fmt))
  }

  lemma LineText(m: Member, depth: nat, fmt: bool)
    ensures MemberHead(m.name, depth + 1, fmt) + Print(m.value, depth + 1, fmt) == Line(m, depth, fmt)
  {
    TabsRepeat(depth + 1);
    var head := When(fmt, Tabs(depth + 1)) + Quoted(m.name);
    Associative(head, ":", When(fmt, "\t"));
    assert ":" + When(fmt, "\t") == if fmt then ":\t" else ":";
  }

  lemma {:induction false} MembersJoined(ms: seq<Member>, depth: nat, fmt: bool)
    requires ms != []
    ensures PrintMembers(ms, depth + 1, fmt) ==
            JoinWith(if fmt then ",\n" else ",", Lines(ms, depth, fmt)) + (if fmt then "\n" else "")
  {
    var lines, sep, end := Lines(ms, depth, fmt), if fmt then ",\n" else ",", if fmt then "\n" else "";
    LineText(ms[0], depth, fmt);
    if |ms| == 1 {
      assert MemberEnd(true, fmt) == end;
    } else {
      MembersJoined(ms[1..], depth, fmt);
      assert lines[1..] == Lines(ms[1..], depth, fmt);
      assert MemberEnd(false, fmt) == sep;
      Associative(lines[0] + sep, JoinWith(sep, lines[1..]), end);
    }
  }

  /** Formatted, every member has a line of its own, indented by one tab more than the object is deep, and the brace
      closes on a line indented as deep as the object. */
  lemma FormattedObject(ms: seq<Member>, depth: nat)
    requires ms != []
    ensures Print(Object(ms), depth, true) ==
            "{\n" + (JoinWith(",\n", Lines(ms, depth, true)) + "\n") + Repeat('\t', depth) + "}"
  {
    MembersJoined(ms, depth, true);
    TabsRepeat(depth);
    assert "{" + "\n" == "{\n";
  }

  /** Unformatted, everything follows without a gap. */
  lemma UnformattedObject(ms: seq<Member>, depth: nat)
    requires ms != []
    ensures Print(Object(ms), depth, false) == "{" + JoinWith(",", Lines(ms, depth, false)) + "}"
  {
    MembersJoined(ms, depth, false);
    NoGaps(JoinWith(",", Lines(ms, depth, false)));
  }

  lemma NoGaps(j: string)
    ensures "{" + "" + (j + "") + "" + "}" == "{" + j + "}"
  {
    assert j + "" == j;
    assert "{" + "" + j + "" == "{" + j;
  }

  /** An empty object is formatted over two lines, its brace one tab further left than that of a filled one. */
  lemma EmptyObjectLayout(depth: nat)
    ensures Print(Object([]), depth, true) == "{\n" + Repeat('\t', if depth == 0 then 0 else depth - 1) + "}"
    ensures Print(Object([]), depth, false) == "{}"
  {
    TabsRepeat(if depth == 0 then 0 else depth - 1);
    Associative("{", "\n", Tabs(depth - 1));
    assert "{" + "\n" == "{\n" && "{" + "" + "}" == "{}";
  }

  /** A printed literal holds no control character, and a string without anything to escape stands for itself. */
  lemma {:induction false} EscapedIsClean(s: string)
    ensures forall i :: 0 <= i < |Escape(s)| ==> Escape(s)[i] >= ' '
    ensures JsonLiteral.AllPlain(s) && (forall i :: 0 <= i < |s| ==> s[i] >= ' ') ==> Escape(s) == s
  {
    if s != [] {
      EscapedIsClean(s[1..]);
      EscapedCharIsClean(s[0]);
      assert s == [s[0]] + s[1..];
    }
  }

  lemma EscapedCharIsClean(c: char)
    ensures forall i :: 0 <= i < |EscapeChar(c)| ==> EscapeChar(c)[i] >= ' '
  {}
}
