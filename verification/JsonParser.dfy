/** The parser as the source writes it: positions advanced through the text by loops. Each method returns
    what the function of the same name in `JsonText` says. */
module JsonParser {
  import opened Common
  import opened Decimal
  import opened JsonLiteral
  import opened JsonLiteralParser
  import opened JsonText

  lemma Successor(s: string, i: nat)
    requires i <= |s|
    ensures At(s[i..], 0) == At(s, i) && (i < |s| ==> s[i..][1..] == s[i + 1..])
  {}

  method SkipSpace(s: string, from: nat) returns (pos: nat)
    requires from <= |s|
    ensures from <= pos <= |s| && s[pos..] == Skip(s[from..])
  {
    pos := from;
    while pos < |s| && s[pos] != '\0' && s[pos] <= ' '
      invariant from <= pos <= |s| && Skip(s[pos..]) == Skip(s[from..])
    {
      Suffix(s, pos);
      pos := pos + 1;
    }
    if pos < |s| {
      Suffix(s, pos);
    }
  }

  method ParseNumberAt(s: string, from: nat) returns (n: int, pos: nat)
    requires from <= |s|
    ensures from <= pos <= |s| && ParseNumber(s[from..]) == Ok(Number(n, 0), s[pos..])
  {
    var sign := 1;
    pos := from;
    SuffixAt(s, pos, 0);
    if At(s, pos) == '-' {
      Suffix(s, pos);
      sign, pos := -1, pos + 1;
    }
    n, pos := MagnitudeAt(s, pos);
    n := Wrap(sign * n);
  }

  method MagnitudeAt(s: string, from: nat) returns (n: int, pos: nat)
    requires from <= |s|
    ensures from <= pos <= |s| && Magnitude(s[from..]) == (n, s[pos..])
  {
    pos := from;
    SuffixAt(s, pos, 0);
    if At(s, pos) == '0' {
      Suffix(s, pos);
      pos := pos + 1;
    }
    n, pos := NonzeroAt(s, pos);
  }

  method NonzeroAt(s: string, from: nat) returns (n: int, pos: nat)
    requires from <= |s|
    ensures from <= pos <= |s|
    ensures var t := s[from..];
            var k := if '1' <= At(t, 0) <= '9' then DigitsOf(t) else 0;
            n == Accumulate(t[..k]) && s[pos..] == t[k..]
  {
    n, pos := 0, from;
    SuffixAt(s, pos, 0);
    if '1' <= At(s, pos) <= '9' {
      n, pos := DigitLoop(s, pos);
    }
  }

  method DigitLoop(s: string, from: nat) returns (n: int, pos: nat)
    requires from < |s| && IsDigit(s[from])
    ensures from <= pos <= |s|
    ensures var k := DigitsOf(s[from..]); pos == from + k && n == Accumulate(s[from..][..k])
  {
    n, pos := 0, from;
    ghost var t := s[from..];
    while pos < |s| && IsDigit(s[pos])
      invariant from <= pos <= |s| && AllDigits(t[..pos - from])
      invariant n == Accumulate(t[..pos - from])
    {
      ghost var k := pos - from;
      assert t[..k + 1][..k] == t[..k] && t[k] == s[pos];
      n := Wrap(10 * n + DigitValue(s[pos]));
      pos := pos + 1;
    }
    DigitsEndHere(t, pos - from);
  }

  lemma DigitsBelow(t: string, k: nat)
    requires k <= |t| && AllDigits(t[..k])
    ensures forall i :: 0 <= i < k ==> IsDigit(t[i])
  {
    forall i | 0 <= i < k ensures IsDigit(t[i]) {
      assert t[i] == t[..k][i];
    }
  }

  lemma DigitsEndHere(t: string, k: nat)
    requires k <= |t| && AllDigits(t[..k]) && (k < |t| ==> !IsDigit(t[k]))
    ensures DigitsOf(t) == k
  {
    var d := DigitsOf(t);
    DigitsBelow(t, k);
    DigitsBelow(t, d);
  }

  method ParseValueAt(s: string, from: nat) returns (v: Outcome<Value>, pos: nat)
    requires from <= |s|
    ensures from <= pos <= |s| && (v.Got? ==> from < pos)
    ensures ParseValue(s[from..]) == Result(v, s[pos..])
    decreases |s| - from, 2
  {
    pos := from;
    SuffixAt(s, from, 0);
    if "null" <= s[from..] {
      return Got(Null), from + 4;
    } else if "false" <= s[from..] {
      return Got(False), from + 5;
    } else if "true" <= s[from..] {
      return Got(True), from + 4;
    } else if At(s, from) == '"' {
      Suffix(s, from);
      var text, end := ParseStringAt(s, from + 1);
      return (if text.Got? then Got(String(text.value)) else Pass(text)), end;
    } else if At(s, from) == '-' || IsDigit(At(s, from)) {
      var n, end := ParseNumberAt(s, from);
      return Got(Number(n, 0)), end;
    } else if At(s, from) == '[' {
      Suffix(s, from);
      v, pos := ParseArrayAt(s, from);
    } else if At(s, from) == '{' {
      Suffix(s, from);
      v, pos := ParseObjectAt(s, from);
    } else {
      return Failed, from;
    }
  }

  /** A failure passed on to the caller. */
  function Pass<T, U>(o: Outcome<T>): Outcome<U>
    requires !o.Got?
  {
    if o.Failed? then Failed else Overran
  }

  method ParseArrayAt(s: string, from: nat) returns (v: Outcome<Value>, pos: nat)
    requires from < |s| && s[from] == '['
    ensures from < pos <= |s|
    ensures ParseArray(Skip(s[from + 1..])) == Result(v, s[pos..])
    decreases |s| - from, 1
  {
    pos := SkipSpace(s, from + 1);
    Successor(s, pos);
    if At(s, pos) == ']' {
      return Got(Array([])), pos + 1;
    }
    var items;
    items, pos := ParseItemsAt(s, pos);
    v := if items.Got? then Got(Array(items.value)) else Pass(items);
  }

  lemma PrependNothing<T>(r: Parsed<seq<T>>)
    ensures PrependAll([], r) == r
  {
    if r.Ok? {
      assert [] + r.value == r.value;
    }
  }

  lemma PrependMore<T>(xs: seq<T>, x: T, r: Parsed<seq<T>>)
    ensures PrependAll(xs, PrependAll([x], r)) == PrependAll(xs + [x], r)
  {
    if r.Ok? {
      Associative(xs, [x], r.value);
    }
  }

  method ParseItemsAt(s: string, from: nat) returns (r: Outcome<seq<Value>>, pos: nat)
    requires from <= |s|
    ensures from <= pos <= |s|
    ensures ParseItems(s[from..]) == Result(r, s[pos..])
    decreases |s| - from, 5
  {
    var items := [];
    pos := from;
    var more := true;
    ghost var whole := ParseItems(s[from..]);
    PrependNothing(whole);
    while more
      invariant from <= pos <= |s|
      invariant more ==> whole == PrependAll(items, ParseItems(s[pos..]))
      invariant !more ==> whole == Ok(items, s[pos..])
      decreases more, |s| - pos
    {
      var v;
      v, more, pos := NextItemAt(s, pos);
      if !v.Got? {
        return Pass(v), from;
      }
      if more {
        PrependMore(items, v.value, ParseItems(s[pos..]));
      }
      items := items + [v.value];
    }
    r := Got(items);
  }

  /** One item and the comma or bracket behind it. */
  method NextItemAt(s: string, from: nat) returns (v: Outcome<Value>, more: bool, pos: nat)
    requires from <= |s|
    ensures from <= pos <= |s| && (v.Got? ==> from < pos)
    ensures !v.Got? ==> ParseItems(s[from..]) == Result(Pass(v), "")
    ensures v.Got? && more ==> ParseItems(s[from..]) == PrependAll([v.value], ParseItems(s[pos..]))
    ensures v.Got? && !more ==> ParseItems(s[from..]) == Ok([v.value], s[pos..])
    decreases |s| - from, 4
  {
    more := false;
    v, pos := ParseItemAt(s, from);
    if !v.Got? {
      return;
    }
    Successor(s, pos);
    if At(s, pos) == ',' {
      pos, more := pos + 1, true;
    } else if At(s, pos) == ']' {
      pos := pos + 1;
    } else {
      v := Failed;
    }
  }

  /** One item with the white space around it. */
  method ParseItemAt(s: string, from: nat) returns (v: Outcome<Value>, pos: nat)
    requires from <= |s|
    ensures from <= pos <= |s|
    ensures !v.Got? ==> ParseItems(s[from..]) == Result(Pass(v), "")
    ensures v.Got? ==> ParseItems(s[from..]) == ItemsAfter(v.value, s[pos..])
    decreases |s| - from, 3
  {
    pos := SkipSpace(s, from);
    v, pos := ParseValueAt(s, pos);
    if v.Got? {
      pos := SkipSpace(s, pos);
    }
  }

  method ParseObjectAt(s: string, from: nat) returns (v: Outcome<Value>, pos: nat)
    requires from < |s| && s[from] == '{'
    ensures from < pos <= |s|
    ensures ParseObject(Skip(s[from + 1..])) == Result(v, s[pos..])
    decreases |s| - from, 1
  {
    pos := SkipSpace(s, from + 1);
    Successor(s, pos);
    if At(s, pos) == '}' {
      return Got(Object([])), pos + 1;
    }
    var members;
    members, pos := ParseMembersAt(s, pos);
    v := if members.Got? then Got(Object(members.value)) else Pass(members);
  }

  method ParseMembersAt(s: string, from: nat) returns (r: Outcome<seq<Member>>, pos: nat)
    requires from <= |s|
    ensures from <= pos <= |s|
    ensures ParseMembers(s[from..]) == Result(r, s[pos..])
    decreases |s| - from, 5
  {
    var members := [];
    pos := from;
    var more := true;
    ghost var whole := ParseMembers(s[from..]);
    PrependNothing(whole);
    while more
      invariant from <= pos <= |s|
      invariant more ==> whole == PrependAll(members, ParseMembers(s[pos..]))
      invariant !more ==> whole == Ok(members, s[pos..])
      decreases more, |s| - pos
    {
      var m;
      m, more, pos := NextMemberAt(s, pos);
      if !m.Got? {
        return Pass(m), from;
      }
      if more {
        PrependMore(members, m.value, ParseMembers(s[pos..]));
      }
      members := members + [m.value];
    }
    r := Got(members);
  }

  /** One member and the comma or brace behind it. */
  method NextMemberAt(s: string, from: nat) returns (m: Outcome<Member>, more: bool, pos: nat)
    requires from <= |s|
    ensures from <= pos <= |s| && (m.Got? ==> from < pos)
    ensures !m.Got? ==> ParseMembers(s[from..]) == Result(Pass(m), "")
    ensures m.Got? && more ==> ParseMembers(s[from..]) == PrependAll([m.value], ParseMembers(s[pos..]))
    ensures m.Got? && !more ==> ParseMembers(s[from..]) == Ok([m.value], s[pos..])
    decreases |s| - from, 4
  {
    more := false;
    m, pos := ParseMemberAt(s, from);
    if !m.Got? {
      return;
    }
    Successor(s, pos);
    if At(s, pos) == ',' {
      pos, more := pos + 1, true;
    } else if At(s, pos) == '}' {
      pos := pos + 1;
    } else {
      m := Failed;
    }
  }

  /** One name, colon and value with the white space around them. */
  method ParseMemberAt(s: string, from: nat) returns (m: Outcome<Member>, pos: nat)
    requires from <= |s|
    ensures from <= pos <= |s|
    ensures !m.Got? ==> ParseMembers(s[from..]) == Result(Pass(m), "")
    ensures m.Got? ==> ParseMembers(s[from..]) == MembersAfter(m.value, s[pos..])
    decreases |s| - from, 3
  {
    var name;
    name, pos := ParseNameAt(s, from);
    if !name.Got? {
      return Pass(name), pos;
    }
    var v;
    v, pos := ParseValueAt(s, pos);
    if !v.Got? {
      return Pass(v), pos;
    }
    pos := SkipSpace(s, pos);
    m := Got(Member(name.value, v.value));
  }

  method ParseNameAt(s: string, from: nat) returns (name: Outcome<string>, pos: nat)
    requires from <= |s|
    ensures from <= pos <= |s|
    ensures ParseName(s[from..]) == Result(name, s[pos..])
  {
    pos := SkipSpace(s, from);
    SuffixAt(s, pos, 0);
    if At(s, pos) != '"' {
      return Failed, pos;
    }
    Suffix(s, pos);
    var text, end := ParseStringAt(s, pos + 1);
    name, pos := ColonAt(s, text, end);
  }

  method ColonAt(s: string, text: Outcome<string>, from: nat) returns (name: Outcome<string>, pos: nat)
    requires from <= |s|
    ensures from <= pos <= |s|
    ensures BeforeColon(Result(text, s[from..])) == Result(name, s[pos..])
  {
    if !text.Got? {
      return text, from;
    }
    pos := SkipSpace(s, from);
    Successor(s, pos);
    if At(s, pos) != ':' {
      return Failed, pos;
    }
    pos := SkipSpace(s, pos + 1);
    name := text;
  }

  /** `cJSON_ParseWithOpts`. */
  method ParseDocumentAt(s: string, requireEnd: bool) returns (v: Outcome<Value>, end: nat)
    ensures end <= |s|
    ensures ParseDocument(s, requireEnd) == Result(v, s[end..])
  {
    assert s[0..] == s;
    end := SkipSpace(s, 0);
    v, end := ParseValueAt(s, end);
    if !v.Got? {
      return;
    }
    if requireEnd {
      end := SkipSpace(s, end);
      Successor(s, end);
      if At(s, end) != '\0' {
        v := Failed;
      }
    }
  }
}
