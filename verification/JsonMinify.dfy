/** `cJSON_Minify`: removes white space and comments in place, leaving string literals alone. */
module JsonMinify {
  import opened Common
  import opened Decimal
  import opened JsonLiteral
  import opened JsonText

  predicate IsSpace(c: char) { c == ' ' || c == '\t' || c == '\r' || c == '\n' }

  /** What is left of a line comment: from its end of line on. */
  function AfterLine(s: string): (r: string)
    ensures |r| <= |s|
  {
    if s == [] || s[0] == '\n' then s else AfterLine(s[1..])
  }

  /** What is left behind a block comment. */
  function AfterBlock(s: string): (r: string)
    ensures |r| <= |s|
  {
    if s == [] then [] else if s[0] == '*' && At(s, 1) == '/' then s[2..] else AfterBlock(s[1..])
  }

  function Minify(s: string): string
    decreases |s|
  {
    if s == [] then []
    else if IsSpace(s[0]) then Minify(s[1..])
    else if s[0] == '/' && At(s, 1) == '/' then Minify(AfterLine(s[1..]))
    else if s[0] == '/' && At(s, 1) == '*' then Minify(AfterBlock(s[1..]))
    else if s[0] == '"' then "\"" + MinifyLiteral(s[1..])
    else [s[0]] + Minify(s[1..])
  }

  /** Inside a string literal. */
  function MinifyLiteral(s: string): string
    decreases |s|
  {
    if s == [] then []
    else if s[0] == '"' then "\"" + Minify(s[1..])
    else if s[0] == '\\' && |s| > 1 then s[..2] + MinifyLiteral(s[2..])
    else [s[0]] + MinifyLiteral(s[1..])
  }

  /** Texts in which every string literal and block comment is closed: what the caller must supply, since
      the code steps over their ends without looking for the end of the text. */
  predicate Closed(s: string)
    decreases |s|
  {
    if s == [] then true
    else if IsSpace(s[0]) then Closed(s[1..])
    else if s[0] == '/' && At(s, 1) == '/' then Closed(AfterLine(s[1..]))
    else if s[0] == '/' && At(s, 1) == '*' then BlockCloses(s[1..]) && Closed(AfterBlock(s[1..]))
    else if s[0] == '"' then LiteralCloses(s[1..])
    else Closed(s[1..])
  }

  predicate BlockCloses(s: string) {
    s != [] && ((s[0] == '*' && At(s, 1) == '/') || BlockCloses(s[1..]))
  }

  predicate LiteralCloses(s: string)
    decreases |s|
  {
    if s == [] then false
    else if s[0] == '"' then Closed(s[1..])
    else if s[0] == '\\' then |s| > 1 && LiteralCloses(s[2..])
    else LiteralCloses(s[1..])
  }

  // Minify undoes formatting

  /** What minifying a piece of text in front of anything gives. */
  ghost predicate Shrinks(s: string, m: string, rest: string) {
    && Minify(s + rest) == m + Minify(rest)
    && (Closed(rest) ==> Closed(s + rest))
  }

  lemma ShrinksAppend(s: string, m: string, s': string, m': string, rest: string)
    requires Shrinks(s, m, s' + rest) && Shrinks(s', m', rest)
    ensures Shrinks(s + s', m + m', rest)
  {
    Associative(s, s', rest);
    Associative(m, m', Minify(rest));
  }

  predicate IsPlain(c: char) { !IsSpace(c) && c != '/' && c != '"' }

  lemma {:induction false} PlainStays(s: string, rest: string)
    requires forall i :: 0 <= i < |s| ==> IsPlain(s[i])
    ensures Shrinks(s, s, rest)
  {
    if s == [] {
      assert s + rest == rest;
    } else {
      PlainStays(s[1..], rest);
      assert (s + rest)[1..] == s[1..] + rest;
      assert s == [s[0]] + s[1..];
      Associative([s[0]], s[1..], Minify(rest));
    }
  }

  lemma {:induction false} SpaceVanishes(s: string, rest: string)
    requires forall i :: 0 <= i < |s| ==> IsSpace(s[i])
    ensures Shrinks(s, "", rest)
  {
    if s == [] {
      assert s + rest == rest;
    } else {
      SpaceVanishes(s[1..], rest);
      assert (s + rest)[1..] == s[1..] + rest;
    }
  }

  lemma {:induction false} TabsAreSpace(n: int)
    ensures forall i :: 0 <= i < |Tabs(n)| ==> IsSpace(Tabs(n)[i])
    decreases n
  {
    if n > 0 {
      TabsAreSpace(n - 1);
    }
  }

  lemma LiteralChar(c: char, t: string)
    requires c != '\0'
    ensures MinifyLiteral(EscapeChar(c) + t) == EscapeChar(c) + MinifyLiteral(t)
    ensures LiteralCloses(t) ==> LiteralCloses(EscapeChar(c) + t)
  {
    var e := EscapeChar(c);
    var s := e + t;
    if |e| == 1 {
      assert s[1..] == t;
    } else if |e| == 2 {
      assert s[2..] == t && s[..2] == e;
    } else {
      LiteralControl(e, t);
    }
  }

  lemma LiteralControl(e: string, t: string)
    requires |e| == 6 && e[0] == '\\' && forall i :: 2 <= i < 6 ==> e[i] != '"' && e[i] != '\\'
    ensures MinifyLiteral(e + t) == e + MinifyLiteral(t)
    ensures LiteralCloses(t) ==> LiteralCloses(e + t)
  {
    var s, m := e + t, MinifyLiteral(t);
    LiteralPlain(e[5], t, s[5..]);
    LiteralPlain(e[4], s[5..], s[4..]);
    LiteralPlain(e[3], s[4..], s[3..]);
    LiteralPlain(e[2], s[3..], s[2..]);
    assert s[..2] == e[..2];
    assert MinifyLiteral(s[2..]) == e[2..] + m;
    assert e == e[..2] + e[2..];
    Associative(e[..2], e[2..], m);
  }

  lemma LiteralPlain(c: char, t: string, s: string)
    requires c != '"' && c != '\\' && s == [c] + t
    ensures MinifyLiteral(s) == [c] + MinifyLiteral(t)
    ensures LiteralCloses(t) ==> LiteralCloses(s)
  {
    assert s[1..] == t;
  }

  lemma {:induction false} LiteralStays(s: string, rest: string)
    requires NulFree(s)
    ensures MinifyLiteral(Escape(s) + ("\"" + rest)) == Escape(s) + ("\"" + Minify(rest))
    ensures Closed(rest) ==> LiteralCloses(Escape(s) + ("\"" + rest))
  {
    var close := "\"" + rest;
    if s == [] {
      assert Escape(s) + close == close && close[1..] == rest;
    } else {
      LiteralStays(s[1..], rest);
      Associative(EscapeChar(s[0]), Escape(s[1..]), close);
      LiteralChar(s[0], Escape(s[1..]) + close);
      Associative(EscapeChar(s[0]), Escape(s[1..]), "\"" + Minify(rest));
    }
  }

  lemma QuotedStays(s: string, rest: string)
    requires NulFree(s)
    ensures Shrinks(Quoted(s), Quoted(s), rest)
  {
    var t := Escape(s) + ("\"" + rest);
    LiteralStays(s, rest);
    Associative("\"" + Escape(s), "\"", rest);
    Associative("\"", Escape(s), "\"" + rest);
    Associative("\"" + Escape(s), "\"", Minify(rest));
    Associative("\"", Escape(s), "\"" + Minify(rest));
    assert ("\"" + t)[1..] == t;
  }

  lemma NumberIsPlain(n: int)
    ensures forall i :: 0 <= i < |Int(n)| ==> IsPlain(Int(n)[i])
  {
    var ds := Digits(if n < 0 then -n else n);
    assert forall i :: 0 <= i < |ds| ==> IsDigit(ds[i]);
  }

  lemma ScalarShrinks(v: Value, depth: nat, rest: string)
    requires Printable(v) && !v.Array? && !v.Object?
    ensures Shrinks(Print(v, depth, true), Print(v, depth, false), rest)
  {
    match v
    case String(s) => QuotedStays(s, rest);
    case Number(n, _) =>
      NumberIsPlain(n);
      PlainStays(Print(v, depth, true), rest);
    case _ => PlainStays(Print(v, depth, true), rest);
  }

  /** `cJSON_Minify` turns the formatted text of every tree into the unformatted one. */
  lemma {:induction false} FormattedShrinks(v: Value, depth: nat, rest: string)
    requires Printable(v)
    ensures Shrinks(Print(v, depth, true), Print(v, depth, false), rest)
    decreases v, 1
  {
    match v
    case Array(items) =>
      if items == [] {
        PlainStays("[]", rest);
      } else {
        var s, m := PrintItems(items, depth + 1, true), PrintItems(items, depth + 1, false);
        PlainStays("[", s + ("]" + rest));
        ItemsShrink(items, depth + 1, "]" + rest);
        ShrinksAppend("[", "[", s, m, "]" + rest);
        PlainStays("]", rest);
        ShrinksAppend("[" + s, "[" + m, "]", "]", rest);
      }
    case Object(ms) => ObjectShrinks(ms, depth, rest);
    case _ => ScalarShrinks(v, depth, rest);
  }

  lemma {:induction false} ItemsShrink(items: seq<Value>, depth: nat, rest: string)
    requires items != [] && forall i :: 0 <= i < |items| ==> Printable(items[i])
    ensures Shrinks(PrintItems(items, depth, true), PrintItems(items, depth, false), rest)
    decreases items, 0
  {
    if |items| == 1 {
      FormattedShrinks(items[0], depth, rest);
    } else {
      var p, q := Print(items[0], depth, true), Print(items[0], depth, false);
      var s, m := PrintItems(items[1..], depth, true), PrintItems(items[1..], depth, false);
      ItemsShrink(items[1..], depth, rest);
      SeparatorShrinks(s + rest);
      FormattedShrinks(items[0], depth, Separator(true) + (s + rest));
      ShrinksAppend(p, q, Separator(true), Separator(false), s + rest);
      ShrinksAppend(p + Separator(true), q + Separator(false), s, m, rest);
    }
  }

  lemma SeparatorShrinks(rest: string)
    ensures Shrinks(Separator(true), Separator(false), rest)
  {
    PlainStays(",", " " + rest);
    SpaceVanishes(" ", rest);
    ShrinksAppend(",", ",", " ", "", rest);
    assert "," + "" == ",";
  }

  lemma HeadShrinks(name: string, depth: nat, rest: string)
    requires NulFree(name)
    ensures Shrinks(MemberHead(name, depth, true), MemberHead(name, depth, false), rest)
  {
    TabsAreSpace(depth);
    var q := Quoted(name);
    SpaceVanishes("\t", rest);
    PlainStays(":", "\t" + rest);
    QuotedStays(name, ":" + ("\t" + rest));
    SpaceVanishes(Tabs(depth), q + (":" + ("\t" + rest)));
    ShrinksAppend(Tabs(depth), "", q, q, ":" + ("\t" + rest));
    ShrinksAppend(Tabs(depth) + q, "" + q, ":", ":", "\t" + rest);
    ShrinksAppend(Tabs(depth) + q + ":", "" + q + ":", "\t", "", rest);
  }

  lemma EndShrinks(last: bool, rest: string)
    ensures Shrinks(MemberEnd(last, true), MemberEnd(last, false), rest)
  {
    SpaceVanishes("\n", rest);
    PlainStays(if last then "" else ",", "\n" + rest);
    ShrinksAppend(if last then "" else ",", if last then "" else ",", "\n", "", rest);
  }

  lemma {:induction false} MemberShrinks(m: Member, last: bool, depth: nat, rest: string)
    requires NulFree(m.name) && Printable(m.value)
    ensures Shrinks(MemberHead(m.name, depth, true) + Print(m.value, depth, true) + MemberEnd(last, true),
                    MemberHead(m.name, depth, false) + Print(m.value, depth, false) + MemberEnd(last, false), rest)
    decreases m, 1
  {
    var p, q := Print(m.value, depth, true), Print(m.value, depth, false);
    var e, f := MemberEnd(last, true), MemberEnd(last, false);
    EndShrinks(last, rest);
    FormattedShrinks(m.value, depth, e + rest);
    HeadShrinks(m.name, depth, p + (e + rest));
    ShrinksAppend(MemberHead(m.name, depth, true), MemberHead(m.name, depth, false), p, q, e + rest);
    ShrinksAppend(MemberHead(m.name, depth, true) + p, MemberHead(m.name, depth, false) + q, e, f, rest);
  }

  lemma {:induction false} MembersShrink(ms: seq<Member>, depth: nat, rest: string)
    requires ms != [] && forall i :: 0 <= i < |ms| ==> NulFree(ms[i].name) && Printable(ms[i].value)
    ensures Shrinks(PrintMembers(ms, depth, true), PrintMembers(ms, depth, false), rest)
    decreases ms, 0
  {
    if |ms| == 1 {
      MemberShrinks(ms[0], true, depth, rest);
    } else {
      var s, m := PrintMembers(ms[1..], depth, true), PrintMembers(ms[1..], depth, false);
      MembersShrink(ms[1..], depth, rest);
      MemberShrinks(ms[0], false, depth, s + rest);
      ShrinksAppend(MemberHead(ms[0].name, depth, true) + Print(ms[0].value, depth, true) + MemberEnd(false, true),
                    MemberHead(ms[0].name, depth, false) + Print(ms[0].value, depth, false) + MemberEnd(false, false),
                    s, m, rest);
    }
  }

  lemma BracesShrink(s: string, m: string, n: int, rest: string)
    requires Shrinks(s, m, Tabs(n) + ("}" + rest))
    ensures Shrinks("{" + "\n" + s + Tabs(n) + "}", "{" + m + "}", rest)
  {
    var close := Tabs(n) + ("}" + rest);
    TabsAreSpace(n);
    PlainStays("}", rest);
    SpaceVanishes(Tabs(n), "}" + rest);
    SpaceVanishes("\n", s + close);
    PlainStays("{", "\n" + (s + close));
    ShrinksAppend("{", "{", "\n", "", s + close);
    ShrinksAppend("{" + "\n", "{" + "", s, m, close);
    ShrinksAppend("{" + "\n" + s, "{" + "" + m, Tabs(n), "", "}" + rest);
    ShrinksAppend("{" + "\n" + s + Tabs(n), "{" + "" + m + "", "}", "}", rest);
    assert "{" + "" + m + "" == "{" + m;
  }

  lemma EmptyObject(depth: nat)
    ensures Print(Object([]), depth, true) == "{" + "\n" + "" + Tabs(depth - 1) + "}"
    ensures Print(Object([]), depth, false) == "{" + "" + "}"
  {
    Associative("{", "\n", Tabs(depth - 1));
    assert "{" + "\n" + "" == "{" + "\n";
  }

  lemma FilledObject(ms: seq<Member>, depth: nat)
    requires ms != []
    ensures Print(Object(ms), depth, true) == "{" + "\n" + PrintMembers(ms, depth + 1, true) + Tabs(depth) + "}"
    ensures Print(Object(ms), depth, false) == "{" + PrintMembers(ms, depth + 1, false) + "}"
  {
    UnformattedBraces(PrintMembers(ms, depth + 1, false));
  }

  lemma UnformattedBraces(m: string)
    ensures "{" + "" + m + "" + "}" == "{" + m + "}"
  {
    assert "{" + "" + m + "" == "{" + m;
  }

  lemma {:induction false} ObjectShrinks(ms: seq<Member>, depth: nat, rest: string)
    requires forall i :: 0 <= i < |ms| ==> NulFree(ms[i].name) && Printable(ms[i].value)
    ensures Shrinks(Print(Object(ms), depth, true), Print(Object(ms), depth, false), rest)
    decreases ms, 1
  {
    if ms == [] {
      EmptyObject(depth);
      PlainStays("", Tabs(depth - 1) + ("}" + rest));
      BracesShrink("", "", depth - 1, rest);
    } else {
      FilledObject(ms, depth);
      MembersShrink(ms, depth + 1, Tabs(depth) + ("}" + rest));
      BracesShrink(PrintMembers(ms, depth + 1, true), PrintMembers(ms, depth + 1, false), depth, rest);
    }
  }

  /** The same for whole documents. */
  lemma MinifyUndoesFormatting(v: Value)
    requires Printable(v)
    ensures Minify(Print(v, 0, true)) == Print(v, 0, false) && Closed(Print(v, 0, true))
  {
    FormattedShrinks(v, 0, "");
    assert Print(v, 0, true) + "" == Print(v, 0, true);
  }

  // In place

  /** A NUL-terminated string of length `n` in a character array. */
  ghost predicate CString(a: array<char>, n: nat)
    reads a
  {
    n < a.Length && a[n] == '\0' && NulFree(a[..n])
  }

  /** Two characters can be inspected anywhere before the terminator. */
  lemma Peek(a: array<char>, n: nat, i: nat)
    requires CString(a, n) && i <= n
    ensures a[i] == '\0' <==> i == n
    ensures i < n ==> a[i] == a[i..n][0] && a[i + 1] == At(a[i..n], 1)
    ensures i < n ==> a[i..n][1..] == a[i + 1..n]
  {
    assert i < n ==> a[i] == a[..n][i];
  }

  method SkipLine(a: array<char>, from: nat, ghost n: nat) returns (json: nat)
    requires CString(a, n) && from <= n
    ensures from <= json <= n && a[json..n] == AfterLine(a[from..n])
  {
    json := from;
    Peek(a, n, json);
    while a[json] != '\0' && a[json] != '\n'
      invariant from <= json <= n && AfterLine(a[json..n]) == AfterLine(a[from..n])
      invariant a[json] == '\0' <==> json == n
      decreases n - json
    {
      Peek(a, n, json);
      json := json + 1;
      Peek(a, n, json);
    }
    Peek(a, n, json);
  }

  method SkipBlock(a: array<char>, from: nat, ghost n: nat) returns (json: nat)
    requires CString(a, n) && from <= n && BlockCloses(a[from..n])
    ensures from <= json <= n && a[json..n] == AfterBlock(a[from..n])
  {
    json := from;
    Peek(a, n, json);
    while a[json] != '\0' && !(a[json] == '*' && a[json + 1] == '/')
      invariant from <= json <= n && BlockCloses(a[json..n])
      invariant AfterBlock(a[json..n]) == AfterBlock(a[from..n])
      invariant a[json] == '\0' <==> json == n
      decreases n - json
    {
      Peek(a, n, json);
      json := json + 1;
      Peek(a, n, json);
    }
    Peek(a, n, json);
    json := json + 2;
  }

  /** `*into++ = *json++`: the text not yet read stays as it was. */
  method CopyChar(a: array<char>, into: nat, json: nat, ghost n: nat)
    requires CString(a, n) && into <= json < n
    modifies a
    ensures CString(a, n) && a[..into + 1] == old(a[..into]) + [old(a[json])]
    ensures a[json + 1..n] == old(a[json..n])[1..] && a[json + 1] == old(a[json + 1])
  {
    Peek(a, n, json);
    ghost var was := a[..n];
    a[into] := a[json];
    assert a[..n] == was[into := was[json]];
  }

  /** An escape is copied together with the character behind the backslash. */
  method CopyPair(a: array<char>, into: nat, json: nat, ghost n: nat)
    requires CString(a, n) && into <= json && json + 1 < n
    modifies a
    ensures CString(a, n) && a[..into + 2] == old(a[..into]) + old(a[json..n])[..2]
    ensures a[json + 2..n] == old(a[json..n])[2..]
  {
    ghost var done, s := a[..into], a[json..n];
    Peek(a, n, json);
    CopyChar(a, into, json, n);
    Peek(a, n, json + 1);
    CopyChar(a, into + 1, json + 1, n);
    assert s[2..] == s[1..][1..] && s[..2] == [s[0]] + [s[1]];
    Associative(done, [s[0]], [s[1]]);
  }

  /** One round of the loop over a string literal. */
  method CopyLiteralChar(a: array<char>, into0: nat, json0: nat, ghost n: nat) returns (into: nat, json: nat)
    requires CString(a, n) && into0 <= json0 < n && LiteralCloses(a[json0..n]) && a[json0] != '"'
    modifies a
    ensures into <= json <= n && json0 < json && CString(a, n) && LiteralCloses(a[json..n])
    ensures a[..into] + MinifyLiteral(a[json..n]) == old(a[..into0] + MinifyLiteral(a[json0..n]))
  {
    ghost var done, s := a[..into0], a[json0..n];
    Peek(a, n, json0);
    if a[json0] == '\\' {
      CopyPair(a, into0, json0, n);
      into, json := into0 + 2, json0 + 2;
      Associative(done, s[..2], MinifyLiteral(s[2..]));
    } else {
      CopyChar(a, into0, json0, n);
      into, json := into0 + 1, json0 + 1;
      Associative(done, [s[0]], MinifyLiteral(s[1..]));
    }
  }

  method CopyLiteral(a: array<char>, into0: nat, json0: nat, ghost n: nat) returns (into: nat, json: nat)
    requires CString(a, n) && into0 <= json0 <= n && LiteralCloses(a[json0..n])
    modifies a
    ensures into <= json <= n && json0 <= json && CString(a, n) && Closed(a[json..n])
    ensures a[..into] + Minify(a[json..n]) == old(a[..into0] + MinifyLiteral(a[json0..n]))
  {
    into, json := into0, json0;
    Peek(a, n, json);
    while a[json] != '\0' && a[json] != '"'
      invariant into <= json <= n && json0 <= json && CString(a, n) && LiteralCloses(a[json..n])
      invariant a[..into] + MinifyLiteral(a[json..n]) == old(a[..into0] + MinifyLiteral(a[json0..n]))
      invariant a[json] == '\0' <==> json == n
      decreases n - json
    {
      into, json := CopyLiteralChar(a, into, json, n);
      Peek(a, n, json);
    }
    CopyQuote(a, into, json, n);
    into, json := into + 1, json + 1;
  }

  /** The closing quote of a literal. */
  method CopyQuote(a: array<char>, into: nat, json: nat, ghost n: nat)
    requires CString(a, n) && into <= json <= n && LiteralCloses(a[json..n]) && (json < n ==> a[json] == '"')
    modifies a
    ensures json < n && CString(a, n) && Closed(a[json + 1..n])
    ensures a[..into + 1] + Minify(a[json + 1..n]) == old(a[..into] + MinifyLiteral(a[json..n]))
  {
    ghost var done, s := a[..into], a[json..n];
    Peek(a, n, json);
    CopyChar(a, into, json, n);
    Associative(done, ['"'], Minify(s[1..]));
  }

  /** The rounds of the loop that copy nothing. */
  method SkipIgnored(a: array<char>, json0: nat, ghost n: nat) returns (json: nat)
    requires CString(a, n) && json0 < n && Closed(a[json0..n])
    ensures json0 <= json <= n && Closed(a[json..n]) && Minify(a[json..n]) == Minify(a[json0..n])
    ensures json == json0 ==> var s := a[json..n];
                              !IsSpace(s[0]) && !(s[0] == '/' && (At(s, 1) == '/' || At(s, 1) == '*'))
  {
    json := json0;
    Peek(a, n, json);
    if a[json] == ' ' || a[json] == '\t' || a[json] == '\r' || a[json] == '\n' {
      json := json + 1;
    } else if a[json] == '/' && a[json + 1] == '/' {
      json := SkipLine(a, json + 1, n);
    } else if a[json] == '/' && a[json + 1] == '*' {
      json := SkipBlock(a, json + 1, n);
    }
  }

  /** The rounds that copy a string literal or one other character. */
  method CopyToken(a: array<char>, into0: nat, json0: nat, ghost n: nat) returns (into: nat, json: nat)
    requires CString(a, n) && into0 <= json0 < n && Closed(a[json0..n])
    requires var s := a[json0..n]; !IsSpace(s[0]) && !(s[0] == '/' && (At(s, 1) == '/' || At(s, 1) == '*'))
    modifies a
    ensures into <= json <= n && json0 < json && CString(a, n) && Closed(a[json..n])
    ensures a[..into] + Minify(a[json..n]) == old(a[..into0] + Minify(a[json0..n]))
  {
    ghost var done, s := a[..into0], a[json0..n];
    Peek(a, n, json0);
    var c := a[json0];
    CopyChar(a, into0, json0, n);
    if c == '"' {
      Associative(done, ['"'], MinifyLiteral(s[1..]));
      into, json := CopyLiteral(a, into0 + 1, json0 + 1, n);
    } else {
      Associative(done, [s[0]], Minify(s[1..]));
      into, json := into0 + 1, json0 + 1;
    }
  }

  /** The whole routine: what is left in the array is the minified text. The write position never passes
      the read position. */
  method MinifyInPlace(a: array<char>, ghost n: nat)
    requires CString(a, n) && Closed(a[..n])
    modifies a
    ensures var m := Minify(old(a[..n])); |m| <= n && a[..|m|] == m && a[|m|] == '\0'
  {
    var into, json := 0, 0;
    assert a[..0] == [] && a[0..n] == a[..n];
    Peek(a, n, json);
    while a[json] != '\0'
      invariant 0 <= into <= json <= n && CString(a, n) && Closed(a[json..n])
      invariant a[..into] + Minify(a[json..n]) == Minify(old(a[..n]))
      invariant a[json] == '\0' <==> json == n
      decreases n - json
    {
      var next := SkipIgnored(a, json, n);
      if next > json {
        json := next;
      } else {
        into, json := CopyToken(a, into, json, n);
      }
      Peek(a, n, json);
    }
    a[into] := '\0';
  }
}
