/** The allocating printer: every value is printed into a block of its own, whose size is computed
    beforehand, and containers join the blocks of their children. All stores stay inside the blocks. */
module JsonPrinter {
  import opened Common
  import opened Decimal
  import opened JsonLiteral
  import opened JsonText
  import opened JsonPieces

  /** The block holds the NUL-terminated string `s`. */
  ghost predicate Holds(a: array<char>, s: string)
    reads a
  {
    |s| < a.Length && a[..|s|] == s && a[|s|] == '\0'
  }

  /** Stores `s` from `pos` on. */
  method Put(a: array<char>, pos: nat, s: string) returns (end: nat)
    requires pos + |s| <= a.Length
    modifies a
    ensures end == pos + |s| && a[..end] == old(a[..pos]) + s
  {
    forall i | 0 <= i < |s| {
      a[pos + i] := s[i];
    }
    end := pos + |s|;
  }

  method NewString(size: nat, s: string) returns (out: array<char>)
    requires |s| < size
    ensures fresh(out) && out.Length == size && Holds(out, s)
  {
    out := new char[size];
    var end := Put(out, 0, s);
    out[end] := '\0';
    assert out[..end] == s;
  }

  method Strlen(a: array<char>, ghost s: string) returns (n: nat)
    requires Holds(a, s) && NulFree(s)
    ensures n == |s|
  {
    n := 0;
    while a[n] != '\0'
      invariant n <= |s|
      decreases |s| - n
    {
      assert n < |s|;
      n := n + 1;
    }
  }

  // Strings

  /** The first pass over a string: whether anything needs an escape. */
  method AnyEscape(s: string) returns (flag: bool)
    ensures flag <==> exists i :: 0 <= i < |s| && NeedsEscape(s[i])
  {
    flag := false;
    for i := 0 to |s|
      invariant flag <==> exists j :: 0 <= j < i && NeedsEscape(s[j])
    {
      if s[i] < ' ' || s[i] == '"' || s[i] == '\\' {
        flag := true;
      }
    }
  }

  /** The second pass: the exact length of the escaped text. */
  method EscapedLength(s: string) returns (len: nat)
    ensures len == |Escape(s)|
  {
    len := 0;
    assert s[..0] == "";
    for i := 0 to |s|
      invariant len == |Escape(s[..i])|
    {
      EscapeTake(s, i);
      var c := s[i];
      len := len + 1;
      if c in "\"\\\U{0008}\U{000C}\n\r\t" {
        len := len + 1;
      } else if c < ' ' {
        len := len + 5;
      }
    }
    assert s[..|s|] == s;
  }

  /** The third pass writes the quoted text from `pos` on. */
  method WriteQuoted(a: array<char>, pos: nat, s: string) returns (end: nat)
    requires pos + |Quoted(s)| < a.Length
    modifies a
    ensures end == pos + |Quoted(s)| && a[..end] == old(a[..pos]) + Quoted(s) && a[end] == '\0'
  {
    ghost var before := a[..pos] + "\"";
    end := Put(a, pos, "\"");
    assert before + Escape(s[..0]) == before;
    for i := 0 to |s|
      invariant end == pos + 1 + |Escape(s[..i])| && end <= a.Length
      invariant a[..end] == before + Escape(s[..i])
    {
      EscapeTake(s, i);
      EscapeGrows(s, i + 1);
      Associative(before, Escape(s[..i]), EscapeChar(s[i]));
      end := Put(a, end, EscapeChar(s[i]));
    }
    assert s[..|s|] == s;
    end := Put(a, end, "\"");
    Associative(old(a[..pos]), "\"", Escape(s));
    Associative(old(a[..pos]), "\"" + Escape(s), "\"");
    a[end] := '\0';
  }

  method PrintString(s: string) returns (out: array<char>)
    ensures fresh(out) && Holds(out, Quoted(s))
  {
    var flag := AnyEscape(s);
    if !flag {
      EscapePlain(s);
      out := NewString(|s| + 3, "\"" + s + "\"");
    } else {
      var len := EscapedLength(s);
      out := new char[len + 3];
      var end := WriteQuoted(out, 0, s);
      assert out[..end] == Quoted(s);
    }
  }

  method PrintNumber(n: int, d: int) returns (out: array<char>)
    requires IsInt(n) && (d == 0 || d == n)
    ensures fresh(out) && Holds(out, NumberText(n, d))
  {
    if d == 0 {
      out := NewString(2, "0");
    } else {
      NumberFits(n, d);
      out := NewString(21, Int(n));
    }
  }

  // Containers

  method PrintValue(v: Value, depth: nat, fmt: bool) returns (out: array<char>)
    requires Printable(v)
    ensures fresh(out) && Holds(out, Print(v, depth, fmt))
    decreases v, 1
  {
    match v
    case Null => out := NewString(5, "null");
    case False => out := NewString(6, "false");
    case True => out := NewString(5, "true");
    case Number(n, d) => out := PrintNumber(n, d);
    case String(s) => out := PrintString(s);
    case Array(items) => out := PrintArray(items, depth, fmt);
    case Object(ms) => out := PrintObject(ms, depth, fmt);
  }

  /** The blocks hold the texts, in order. */
  ghost predicate HoldAll(blocks: seq<array<char>>, texts: seq<string>)
    reads blocks
  {
    |blocks| == |texts| && forall i :: 0 <= i < |blocks| ==> Holds(blocks[i], texts[i])
  }

  method PrintArray(items: seq<Value>, depth: nat, fmt: bool) returns (out: array<char>)
    requires forall i :: 0 <= i < |items| ==> Printable(items[i])
    ensures fresh(out) && Holds(out, Print(Array(items), depth, fmt))
    decreases items, 1
  {
    if |items| == 0 {
      out := NewString(3, "[]");
      return;
    }
    ghost var texts := Texts(items, depth + 1, fmt);
    TextsNulFree(items, depth + 1, fmt);
    JoinedIsPrintItems(items, depth + 1, fmt);
    var entries := PrintEntries(items, depth + 1, fmt);
    out := JoinArray(entries, texts, fmt);
  }

  method PrintEntries(items: seq<Value>, depth: nat, fmt: bool) returns (entries: seq<array<char>>)
    requires forall i :: 0 <= i < |items| ==> Printable(items[i])
    ensures HoldAll(entries, Texts(items, depth, fmt))
    ensures forall i :: 0 <= i < |entries| ==> fresh(entries[i])
    decreases items, 0
  {
    entries := [];
    ghost var texts := Texts(items, depth, fmt);
    for i := 0 to |items|
      invariant |entries| == i
      invariant forall j :: 0 <= j < i ==> fresh(entries[j]) && Holds(entries[j], texts[j])
    {
      var ret := PrintValue(items[i], depth, fmt);
      entries := entries + [ret];
    }
  }

  /** The space the printer reserves for its children, added up from their string lengths. */
  method TotalRoom(entries: seq<array<char>>, ghost texts: seq<string>, fmt: bool) returns (len: nat)
    requires HoldAll(entries, texts) && AllNulFree(texts)
    ensures len == JoinedRoom(texts, |texts|, fmt)
  {
    len := 0;
    for i := 0 to |entries|
      invariant len == JoinedRoom(texts, i, fmt)
    {
      var n := Strlen(entries[i], texts[i]);
      len := len + n + 2 + (if fmt then 1 else 0);
    }
  }

  method JoinArray(entries: seq<array<char>>, ghost texts: seq<string>, fmt: bool) returns (out: array<char>)
    requires HoldAll(entries, texts) && AllNulFree(texts)
    ensures fresh(out) && Holds(out, "[" + Joined(texts, |texts|, fmt) + "]")
  {
    var len := TotalRoom(entries, texts, fmt);
    out := new char[5 + len];
    JoinedFits(texts, |texts|, fmt);
    var pos := Put(out, 0, "[");
    pos := JoinItems(out, pos, entries, texts, fmt);
    pos := Put(out, pos, "]");
    out[pos] := '\0';
    assert out[..pos] == "[" + Joined(texts, |texts|, fmt) + "]";
  }

  method JoinItems(out: array<char>, pos: nat, entries: seq<array<char>>, ghost texts: seq<string>, fmt: bool)
    returns (end: nat)
    requires HoldAll(entries, texts) && AllNulFree(texts) && out !in entries
    requires pos + JoinedRoom(texts, |texts|, fmt) <= out.Length
    modifies out
    ensures end == pos + |Joined(texts, |texts|, fmt)| <= out.Length
    ensures out[..end] == old(out[..pos]) + Joined(texts, |texts|, fmt)
  {
    end := pos;
    ghost var before := out[..pos];
    for i := 0 to |entries|
      invariant end == pos + |Joined(texts, i, fmt)| <= out.Length
      invariant out[..end] == before + Joined(texts, i, fmt)
      invariant HoldAll(entries, texts)
    {
      NextItem(before, texts, i, fmt);
      end := JoinItem(out, end, entries[i], texts[i], i == |entries| - 1, fmt);
    }
  }

  lemma NextItem(before: string, texts: seq<string>, i: nat, fmt: bool)
    requires i < |texts|
    ensures var done, sep := Joined(texts, i, fmt), After(i, |texts|, fmt);
            && |done| + |texts[i]| + |sep| == |Joined(texts, i + 1, fmt)| <= JoinedRoom(texts, |texts|, fmt)
            && before + Joined(texts, i + 1, fmt) == before + done + texts[i] + sep
  {
    JoinedFits(texts, i + 1, fmt);
    JoinedRoomGrows(texts, i + 1, fmt);
    Associative(before, Joined(texts, i, fmt), texts[i]);
    Associative(before, Joined(texts, i, fmt) + texts[i], After(i, |texts|, fmt));
  }

  method JoinItem(out: array<char>, pos: nat, entry: array<char>, ghost text: string, last: bool, fmt: bool)
    returns (end: nat)
    requires out != entry && Holds(entry, text) && NulFree(text)
    requires pos + |text| + (if last then 0 else |Separator(fmt)|) <= out.Length
    modifies out
    ensures end == pos + |text| + (if last then 0 else |Separator(fmt)|)
    ensures out[..end] == old(out[..pos]) + text + (if last then "" else Separator(fmt))
  {
    var tmplen := Strlen(entry, text);
    end := Put(out, pos, entry[..tmplen]);
    if !last {
      end := Put(out, end, if fmt then ", " else ",");
    }
  }

  method PrintObject(ms: seq<Member>, depth: nat, fmt: bool) returns (out: array<char>)
    requires forall i :: 0 <= i < |ms| ==> NulFree(ms[i].name) && Printable(ms[i].value)
    ensures fresh(out) && Holds(out, Print(Object(ms), depth, fmt))
    decreases ms, 1
  {
    if |ms| == 0 {
      TabsLength(depth - 1);
      out := NewString(if fmt then depth + 4 else 3, "{" + When(fmt, "\n" + Tabs(depth - 1)) + "}");
      return;
    }
    ghost var nameTexts, texts := NameTexts(ms), ValueTexts(ms, depth + 1, fmt);
    MemberTextsNulFree(ms, depth + 1, fmt);
    JoinedIsPrintMembers(ms, depth + 1, fmt);
    var names := PrintNames(ms);
    var entries := PrintMemberValues(ms, depth + 1, fmt);
    out := JoinObject(names, entries, nameTexts, texts, depth + 1, fmt);
  }

  method PrintNames(ms: seq<Member>) returns (names: seq<array<char>>)
    ensures HoldAll(names, NameTexts(ms))
    ensures forall i :: 0 <= i < |names| ==> fresh(names[i])
  {
    names := [];
    for i := 0 to |ms|
      invariant |names| == i
      invariant forall j :: 0 <= j < i ==> fresh(names[j]) && Holds(names[j], NameTexts(ms)[j])
    {
      var str := PrintString(ms[i].name);
      names := names + [str];
    }
  }

  method PrintMemberValues(ms: seq<Member>, depth: nat, fmt: bool) returns (entries: seq<array<char>>)
    requires forall i :: 0 <= i < |ms| ==> Printable(ms[i].value)
    ensures HoldAll(entries, ValueTexts(ms, depth, fmt))
    ensures forall i :: 0 <= i < |entries| ==> fresh(entries[i])
    decreases ms, 0
  {
    entries := [];
    ghost var texts := ValueTexts(ms, depth, fmt);
    for i := 0 to |ms|
      invariant |entries| == i
      invariant forall j :: 0 <= j < i ==> fresh(entries[j]) && Holds(entries[j], texts[j])
    {
      var ret := PrintValue(ms[i].value, depth, fmt);
      entries := entries + [ret];
    }
  }

  method TotalMemberRoom(names: seq<array<char>>, entries: seq<array<char>>, ghost nameTexts: seq<string>,
                         ghost texts: seq<string>, depth: nat, fmt: bool) returns (len: nat)
    requires HoldAll(names, nameTexts) && HoldAll(entries, texts) && |names| == |entries|
    requires AllNulFree(nameTexts) && AllNulFree(texts)
    ensures len == MembersRoom(nameTexts, texts, |texts|, depth, fmt)
  {
    len := 0;
    for i := 0 to |entries|
      invariant len == MembersRoom(nameTexts, texts, i, depth, fmt)
    {
      var m := Strlen(entries[i], texts[i]);
      var n := Strlen(names[i], nameTexts[i]);
      len := len + m + n + 2 + (if fmt then 2 + depth else 0);
    }
  }

  /** `depth` is that of the members. */
  method JoinObject(names: seq<array<char>>, entries: seq<array<char>>, ghost nameTexts: seq<string>,
                    ghost texts: seq<string>, depth: nat, fmt: bool) returns (out: array<char>)
    requires HoldAll(names, nameTexts) && HoldAll(entries, texts) && |names| == |entries| && depth > 0
    requires AllNulFree(nameTexts) && AllNulFree(texts)
    ensures fresh(out)
    ensures Holds(out, "{" + When(fmt, "\n") + JoinedMembers(nameTexts, texts, |texts|, depth, fmt) + When(fmt, Tabs(depth - 1)) + "}")
  {
    var len := TotalMemberRoom(names, entries, nameTexts, texts, depth, fmt);
    out := new char[7 + (if fmt then depth else 0) + len];
    ghost var members := JoinedMembers(nameTexts, texts, |texts|, depth, fmt);
    JoinedMembersFit(nameTexts, texts, |texts|, depth, fmt);
    TabsLength(depth - 1);
    var open, tabs := "{" + When(fmt, "\n"), When(fmt, Tabs(depth - 1));
    var pos := Put(out, 0, open);
    assert out[..pos] == open;
    pos := JoinMembers(out, pos, names, entries, nameTexts, texts, depth, fmt);
    Close(out, pos, tabs, open + members);
  }

  /** The closing brace and the terminator. */
  method Close(out: array<char>, pos: nat, tabs: string, ghost text: string)
    requires pos + |tabs| + 1 < out.Length && out[..pos] == text
    modifies out
    ensures Holds(out, text + tabs + "}")
  {
    var end := Put(out, pos, tabs);
    end := Put(out, end, "}");
    out[end] := '\0';
    assert out[..end] == text + tabs + "}";
  }

  /** One member, written from `pos` on. */
  method JoinMember(out: array<char>, pos: nat, name: array<char>, entry: array<char>,
                    ghost nameText: string, ghost text: string, last: bool, depth: nat, fmt: bool,
                    ghost piece: string) returns (end: nat)
    requires out != name && out != entry
    requires Holds(name, nameText) && Holds(entry, text) && NulFree(nameText) && NulFree(text)
    requires piece == MemberText(nameText, text, last, depth, fmt) && pos + |piece| <= out.Length
    modifies out
    ensures end == pos + |piece| && out[..end] == old(out[..pos]) + piece
  {
    end := Put(out, pos, When(fmt, Tabs(depth)));
    var n := Strlen(name, nameText);
    end := Put(out, end, name[..n]);
    end := Put(out, end, ":");
    end := Put(out, end, When(fmt, "\t"));
    var m := Strlen(entry, text);
    end := Put(out, end, entry[..m]);
    end := Put(out, end, MemberEnd(last, fmt));
    SixPieces(old(out[..pos]), When(fmt, Tabs(depth)), nameText, ":", When(fmt, "\t"), text, MemberEnd(last, fmt));
  }

  lemma SixPieces(a: string, b: string, c: string, d: string, e: string, f: string, g: string)
    ensures a + b + c + d + e + f + g == a + (b + c + d + e + f + g)
  {
    Associative(a, b, c);
    Associative(a, b + c, d);
    Associative(a, b + c + d, e);
    Associative(a, b + c + d + e, f);
    Associative(a, b + c + d + e + f, g);
  }

  lemma NextMember(before: string, names: seq<string>, values: seq<string>, i: nat, depth: nat, fmt: bool, piece: string)
    requires i < |names| == |values| && piece == MemberText(names[i], values[i], i == |names| - 1, depth, fmt)
    ensures var done := JoinedMembers(names, values, i, depth, fmt);
            && |done| + |piece| == |JoinedMembers(names, values, i + 1, depth, fmt)| <= MembersRoom(names, values, |names|, depth, fmt)
            && before + JoinedMembers(names, values, i + 1, depth, fmt) == before + done + piece
  {
    JoinedMembersFit(names, values, i + 1, depth, fmt);
    MembersRoomGrows(names, values, i + 1, depth, fmt);
    Associative(before, JoinedMembers(names, values, i, depth, fmt), piece);
  }

  method JoinMembers(out: array<char>, pos: nat, names: seq<array<char>>, entries: seq<array<char>>,
                     ghost nameTexts: seq<string>, ghost texts: seq<string>, depth: nat, fmt: bool) returns (end: nat)
    requires HoldAll(names, nameTexts) && HoldAll(entries, texts) && |names| == |entries|
    requires AllNulFree(nameTexts) && AllNulFree(texts) && out !in names && out !in entries
    requires pos + MembersRoom(nameTexts, texts, |texts|, depth, fmt) <= out.Length
    modifies out
    ensures end == pos + |JoinedMembers(nameTexts, texts, |texts|, depth, fmt)| <= out.Length
    ensures out[..end] == old(out[..pos]) + JoinedMembers(nameTexts, texts, |texts|, depth, fmt)
  {
    end := pos;
    ghost var before := out[..pos];
    for i := 0 to |entries|
      invariant end == pos + |JoinedMembers(nameTexts, texts, i, depth, fmt)| <= out.Length
      invariant out[..end] == before + JoinedMembers(nameTexts, texts, i, depth, fmt)
      invariant HoldAll(names, nameTexts) && HoldAll(entries, texts)
    {
      var last := i == |entries| - 1;
      ghost var piece := MemberText(nameTexts[i], texts[i], last, depth, fmt);
      NextMember(before, nameTexts, texts, i, depth, fmt, piece);
      end := JoinMember(out, end, names[i], entries[i], nameTexts[i], texts[i], last, depth, fmt, piece);
    }
  }
}
