/** Printed text piece by piece, in the order the two printers write it, and the lengths they reserve. */
module JsonPieces {
  import opened Common
  import opened Decimal
  import opened JsonLiteral
  import opened JsonText

  // Strings

  lemma {:induction false} EscapeSnoc(s: string, c: char)
    ensures Escape(s + [c]) == Escape(s) + EscapeChar(c)
  {
    if s == [] {
      assert s + [c] == [c] && [c][1..] == "";
      assert Escape([c]) == EscapeChar(c) + Escape([c][1..]);
    } else {
      assert (s + [c])[1..] == s[1..] + [c];
      EscapeSnoc(s[1..], c);
      Associative(EscapeChar(s[0]), Escape(s[1..]), EscapeChar(c));
    }
  }

  lemma EscapeTake(s: string, i: nat)
    requires i < |s|
    ensures Escape(s[..i + 1]) == Escape(s[..i]) + EscapeChar(s[i])
  {
    assert s[..i + 1] == s[..i] + [s[i]];
    EscapeSnoc(s[..i], s[i]);
  }

  lemma {:induction false} EscapeGrows(s: string, i: nat)
    requires i <= |s|
    ensures |Escape(s[..i])| <= |Escape(s)|
    decreases |s| - i
  {
    if i == |s| {
      assert s[..i] == s;
    } else {
      EscapeTake(s, i);
      EscapeGrows(s, i + 1);
    }
  }

  predicate NeedsEscape(c: char) { c < ' ' || c == '"' || c == '\\' }

  lemma {:induction false} EscapePlain(s: string)
    requires forall i :: 0 <= i < |s| ==> !NeedsEscape(s[i])
    ensures Escape(s) == s
  {
    if s != [] {
      EscapePlain(s[1..]);
      assert s == [s[0]] + s[1..];
    }
  }

  lemma EscapeCharNulFree(c: char)
    requires c != '\0'
    ensures NulFree(EscapeChar(c))
  {}

  lemma {:induction false} EscapeNulFree(s: string)
    ensures NulFree(Escape(s)) <== NulFree(s)
  {
    if s != [] && NulFree(s) {
      EscapeNulFree(s[1..]);
      EscapeCharNulFree(s[0]);
      NulFreeAppend(EscapeChar(s[0]), Escape(s[1..]));
    }
  }

  lemma {:induction false} TabsLength(n: int)
    ensures |Tabs(n)| == (if n < 0 then 0 else n) && NulFree(Tabs(n))
    ensures forall i :: 0 <= i < |Tabs(n)| ==> Tabs(n)[i] == '\t'
    decreases n
  {
    if n > 0 {
      TabsLength(n - 1);
    }
  }

  /** `%d` needs at most eleven characters, well within the 21 reserved. */
  lemma NumberFits(n: int, d: int)
    requires IsInt(n)
    ensures |NumberText(n, d)| <= 11 && NulFree(NumberText(n, d))
  {
    var m := if n < 0 then -n else n;
    PowerTen();
    DigitsLength(m, 10);
    assert forall i :: 0 <= i < |Digits(m)| ==> IsDigit(Digits(m)[i]);
  }

  lemma PowerTen()
    ensures Power10(10) == 10_000_000_000
  {
    assert Power10(5) == 100_000;
    assert Power10(10) == 100_000 * Power10(5);
  }

  // Arrays

  ghost predicate AllNulFree(ss: seq<string>) { forall i :: 0 <= i < |ss| ==> NulFree(ss[i]) }

  /** What follows item `i` of `n`. */
  function After(i: nat, n: nat, fmt: bool): string { if i + 1 < n then Separator(fmt) else "" }

  /** The first `i` texts with the separators behind them. */
  function Joined(texts: seq<string>, i: nat, fmt: bool): string
    requires i <= |texts|
  {
    if i == 0 then "" else Joined(texts, i - 1, fmt) + texts[i - 1] + After(i - 1, |texts|, fmt)
  }

  /** What the joining printer adds to its length for the first `i` texts. */
  function JoinedRoom(texts: seq<string>, i: nat, fmt: bool): nat
    requires i <= |texts|
  {
    if i == 0 then 0 else JoinedRoom(texts, i - 1, fmt) + |texts[i - 1]| + 2 + (if fmt then 1 else 0)
  }

  lemma {:induction false} JoinedFits(texts: seq<string>, i: nat, fmt: bool)
    requires i <= |texts|
    ensures |Joined(texts, i, fmt)| <= JoinedRoom(texts, i, fmt)
  {
    if i > 0 {
      JoinedFits(texts, i - 1, fmt);
    }
  }

  lemma {:induction false} JoinedRoomGrows(texts: seq<string>, i: nat, fmt: bool)
    requires i <= |texts|
    ensures JoinedRoom(texts, i, fmt) <= JoinedRoom(texts, |texts|, fmt)
    decreases |texts| - i
  {
    if i < |texts| {
      JoinedRoomGrows(texts, i + 1, fmt);
    }
  }

  ghost function Texts(items: seq<Value>, depth: nat, fmt: bool): seq<string> {
    seq(|items|, i requires 0 <= i < |items| => Print(items[i], depth, fmt))
  }

  lemma {:induction false} JoinedRest(items: seq<Value>, i: nat, depth: nat, fmt: bool)
    requires i < |items|
    ensures Joined(Texts(items, depth, fmt), i, fmt) + PrintItems(items[i..], depth, fmt) == PrintItems(items, depth, fmt)
  {
    if i == 0 {
      assert items[0..] == items;
    } else {
      JoinedRest(items, i - 1, depth, fmt);
      assert items[i - 1..][1..] == items[i..];
      var a, p, rest := Joined(Texts(items, depth, fmt), i - 1, fmt), Print(items[i - 1], depth, fmt), PrintItems(items[i..], depth, fmt);
      Associative(a, p, Separator(fmt));
      Associative(a, p + Separator(fmt), rest);
    }
  }

  lemma JoinedIsPrintItems(items: seq<Value>, depth: nat, fmt: bool)
    requires items != []
    ensures Joined(Texts(items, depth, fmt), |items|, fmt) == PrintItems(items, depth, fmt)
  {
    var n := |items| - 1;
    JoinedRest(items, n, depth, fmt);
    assert items[n..] == [items[n]];
    var a, p := Joined(Texts(items, depth, fmt), n, fmt), Print(items[n], depth, fmt);
    assert a + p + "" == a + p;
  }

  // Objects

  /** One member from the texts of its name and value. */
  function MemberText(name: string, value: string, last: bool, depth: nat, fmt: bool): string {
    When(fmt, Tabs(depth)) + name + ":" + When(fmt, "\t") + value + MemberEnd(last, fmt)
  }

  function JoinedMembers(names: seq<string>, values: seq<string>, i: nat, depth: nat, fmt: bool): string
    requires i <= |names| == |values|
  {
    if i == 0 then ""
    else JoinedMembers(names, values, i - 1, depth, fmt) + MemberText(names[i - 1], values[i - 1], i == |names|, depth, fmt)
  }

  function MembersRoom(names: seq<string>, values: seq<string>, i: nat, depth: nat, fmt: bool): nat
    requires i <= |names| == |values|
  {
    if i == 0 then 0
    else MembersRoom(names, values, i - 1, depth, fmt) + |values[i - 1]| + |names[i - 1]| + 2 + (if fmt then 2 + depth else 0)
  }

  lemma {:induction false} JoinedMembersFit(names: seq<string>, values: seq<string>, i: nat, depth: nat, fmt: bool)
    requires i <= |names| == |values|
    ensures |JoinedMembers(names, values, i, depth, fmt)| <= MembersRoom(names, values, i, depth, fmt)
  {
    if i > 0 {
      JoinedMembersFit(names, values, i - 1, depth, fmt);
      TabsLength(depth);
    }
  }

  lemma {:induction false} MembersRoomGrows(names: seq<string>, values: seq<string>, i: nat, depth: nat, fmt: bool)
    requires i <= |names| == |values|
    ensures MembersRoom(names, values, i, depth, fmt) <= MembersRoom(names, values, |names|, depth, fmt)
    decreases |names| - i
  {
    if i < |names| {
      MembersRoomGrows(names, values, i + 1, depth, fmt);
    }
  }

  ghost function NameTexts(ms: seq<Member>): seq<string> {
    seq(|ms|, i requires 0 <= i < |ms| => Quoted(ms[i].name))
  }

  ghost function ValueTexts(ms: seq<Member>, depth: nat, fmt: bool): seq<string> {
    seq(|ms|, i requires 0 <= i < |ms| => Print(ms[i].value, depth, fmt))
  }

  lemma {:induction false} JoinedMembersRest(ms: seq<Member>, i: nat, depth: nat, fmt: bool)
    requires i < |ms|
    ensures JoinedMembers(NameTexts(ms), ValueTexts(ms, depth, fmt), i, depth, fmt) + PrintMembers(ms[i..], depth, fmt) ==
            PrintMembers(ms, depth, fmt)
  {
    if i == 0 {
      assert ms[0..] == ms;
    } else {
      JoinedMembersRest(ms, i - 1, depth, fmt);
      assert ms[i - 1..][1..] == ms[i..];
      var m := ms[i - 1];
      var piece := MemberText(Quoted(m.name), Print(m.value, depth, fmt), false, depth, fmt);
      Associative(JoinedMembers(NameTexts(ms), ValueTexts(ms, depth, fmt), i - 1, depth, fmt), piece, PrintMembers(ms[i..], depth, fmt));
    }
  }

  lemma JoinedIsPrintMembers(ms: seq<Member>, depth: nat, fmt: bool)
    requires ms != []
    ensures JoinedMembers(NameTexts(ms), ValueTexts(ms, depth, fmt), |ms|, depth, fmt) == PrintMembers(ms, depth, fmt)
  {
    var n := |ms| - 1;
    JoinedMembersRest(ms, n, depth, fmt);
    assert ms[n..] == [ms[n]];
  }

  // No printed text contains the terminator

  lemma NulFreeAppend(s: string, t: string)
    requires NulFree(s) && NulFree(t)
    ensures NulFree(s + t)
  {}

  lemma BracesNulFree(body: string, w: string, fmt: bool)
    requires NulFree(body) && NulFree(w)
    ensures NulFree("{" + When(fmt, "\n") + body + When(fmt, w) + "}")
  {
    var t := "{" + When(fmt, "\n");
    NulFreeAppend(t, body);
    NulFreeAppend(t + body, When(fmt, w));
    NulFreeAppend(t + body + When(fmt, w), "}");
  }

  lemma {:induction false} PrintNulFree(v: Value, depth: nat, fmt: bool)
    requires Printable(v)
    ensures NulFree(Print(v, depth, fmt))
    decreases v, 1
  {
    match v
    case Number(n, d) => NumberFits(n, d);
    case String(s) => EscapeNulFree(s);
    case Array(items) => if items != [] { ItemsNulFree(items, depth + 1, fmt); }
    case Object(ms) =>
      if ms == [] {
        TabsLength(depth - 1);
      } else {
        TabsLength(depth);
        MembersNulFree(ms, depth + 1, fmt);
        BracesNulFree(PrintMembers(ms, depth + 1, fmt), Tabs(depth), fmt);
      }
    case _ =>
  }

  lemma {:induction false} ItemsNulFree(items: seq<Value>, depth: nat, fmt: bool)
    requires items != [] && forall i :: 0 <= i < |items| ==> Printable(items[i])
    ensures NulFree(PrintItems(items, depth, fmt))
    decreases items, 0
  {
    PrintNulFree(items[0], depth, fmt);
    if |items| > 1 {
      ItemsNulFree(items[1..], depth, fmt);
    }
  }

  lemma {:induction false} MembersNulFree(ms: seq<Member>, depth: nat, fmt: bool)
    requires ms != [] && forall i :: 0 <= i < |ms| ==> NulFree(ms[i].name) && Printable(ms[i].value)
    ensures NulFree(PrintMembers(ms, depth, fmt))
    decreases ms, 0
  {
    PrintNulFree(ms[0].value, depth, fmt);
    EscapeNulFree(ms[0].name);
    TabsLength(depth);
    if |ms| > 1 {
      MembersNulFree(ms[1..], depth, fmt);
    }
  }

  lemma TextsNulFree(items: seq<Value>, depth: nat, fmt: bool)
    requires forall i :: 0 <= i < |items| ==> Printable(items[i])
    ensures AllNulFree(Texts(items, depth, fmt))
  {
    forall i | 0 <= i < |items| ensures NulFree(Texts(items, depth, fmt)[i]) {
      PrintNulFree(items[i], depth, fmt);
    }
  }

  lemma MemberTextsNulFree(ms: seq<Member>, depth: nat, fmt: bool)
    requires forall i :: 0 <= i < |ms| ==> NulFree(ms[i].name) && Printable(ms[i].value)
    ensures AllNulFree(NameTexts(ms)) && AllNulFree(ValueTexts(ms, depth, fmt))
  {
    forall i | 0 <= i < |ms| ensures NulFree(NameTexts(ms)[i]) && NulFree(ValueTexts(ms, depth, fmt)[i]) {
      EscapeNulFree(ms[i].name);
      PrintNulFree(ms[i].value, depth, fmt);
    }
  }
}
