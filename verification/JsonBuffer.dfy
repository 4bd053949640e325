/** The buffered printer: everything goes into one growing block, space being asked for before each store
    and the write position recovered from the terminator left by the value printed last. */
module JsonBuffer {
  import opened Common
  import opened Decimal
  import opened JsonLiteral
  import opened JsonText
  import opened JsonPieces
  import opened JsonPrinter
  import opened JsonPower

  class PrintBuffer {
    var buffer: array<char>
    var offset: nat

    ghost predicate Valid()
      reads this
    {
      offset <= buffer.Length
    }

    /** What has been written for good. */
    ghost function Written(): string
      requires Valid()
      reads this, buffer
    {
      buffer[..offset]
    }

    constructor (prebuffer: nat)
      requires prebuffer >= 1
      ensures Valid() && Written() == "" && fresh(buffer)
    {
      buffer := new char[prebuffer];
      offset := 0;
    }

    /** `ensure`: room for `needed` characters from the write position on, moving to a larger block if
        necessary. */
    method Ensure(needed: nat)
      requires Valid()
      modifies this
      ensures Valid() && offset == old(offset) && offset + needed <= buffer.Length
      ensures Written() == old(Written()) && (buffer == old(buffer) || fresh(buffer))
    {
      if offset + needed <= buffer.Length {
        return;
      }
      var newsize := Pow2Gt(offset + needed);
      var newbuffer := new char[newsize];
      forall i | 0 <= i < buffer.Length {
        newbuffer[i] := buffer[i];
      }
      buffer := newbuffer;
    }

    /** `update`: the write position moves to the terminator. */
    method Update(ghost s: string)
      requires Valid() && Holds(buffer, s) && offset <= |s| && forall i :: offset <= i < |s| ==> s[i] != '\0'
      modifies this`offset
      ensures Valid() && offset == |s| && Written() == s
    {
      while buffer[offset] != '\0'
        invariant old(offset) <= offset <= |s| && Valid()
        decreases |s| - offset
      {
        offset := offset + 1;
      }
    }

    /** Space, store and terminator in one; the write position stays. */
    method Place(reserve: nat, s: string)
      requires Valid() && |s| < reserve
      modifies this, buffer
      ensures Valid() && offset == old(offset) && Holds(buffer, old(Written()) + s)
      ensures buffer == old(buffer) || fresh(buffer)
    {
      Ensure(reserve);
      var end := Put(buffer, offset, s);
      buffer[end] := '\0';
    }

    /** Space and store, moving the write position. */
    method Append(reserve: nat, s: string)
      requires Valid() && |s| <= reserve
      modifies this, buffer
      ensures Valid() && Written() == old(Written()) + s
      ensures buffer == old(buffer) || fresh(buffer)
    {
      Ensure(reserve);
      var end := Put(buffer, offset, s);
      if |s| < reserve {
        buffer[end] := '\0';
      }
      offset := end;
    }

    method PrintString(s: string)
      requires Valid()
      modifies this, buffer
      ensures Valid() && offset == old(offset) && Holds(buffer, old(Written()) + Quoted(s))
      ensures buffer == old(buffer) || fresh(buffer)
    {
      var flag := AnyEscape(s);
      if !flag {
        EscapePlain(s);
        Place(|s| + 3, "\"" + s + "\"");
      } else {
        var len := EscapedLength(s);
        Ensure(len + 3);
        var end := WriteQuoted(buffer, offset, s);
      }
    }

    method PrintNumber(n: int, d: int)
      requires Valid() && IsInt(n) && (d == 0 || d == n)
      modifies this, buffer
      ensures Valid() && offset == old(offset) && Holds(buffer, old(Written()) + NumberText(n, d))
      ensures buffer == old(buffer) || fresh(buffer)
    {
      if d == 0 {
        Place(2, "0");
      } else {
        NumberFits(n, d);
        Place(21, Int(n));
      }
    }

    /** Prints behind what is written. The write position may come to rest anywhere in the printed text;
        `start` is where the returned pointer points. */
    method PrintValue(v: Value, depth: nat, fmt: bool) returns (start: nat)
      requires Valid() && Printable(v)
      modifies this, buffer
      ensures Valid() && old(offset) <= offset <= old(offset) + |Print(v, depth, fmt)|
      ensures Holds(buffer, old(Written()) + Print(v, depth, fmt))
      ensures buffer == old(buffer) || fresh(buffer)
      ensures start == if fmt && v.Object? && v.members != [] then depth else old(offset)
      decreases v, 3
    {
      start := offset;
      match v
      case Null => Place(5, "null");
      case False => Place(6, "false");
      case True => Place(5, "true");
      case Number(n, d) => this.PrintNumber(n, d);
      case String(s) => this.PrintString(s);
      case Array(items) => this.PrintArray(items, depth, fmt);
      case Object(ms) => start := this.PrintObject(ms, depth, fmt);
    }

    method PrintArray(items: seq<Value>, depth: nat, fmt: bool)
      requires Valid() && forall i :: 0 <= i < |items| ==> Printable(items[i])
      modifies this, buffer
      ensures Valid() && old(offset) <= offset <= old(offset) + |Print(Array(items), depth, fmt)|
      ensures Holds(buffer, old(Written()) + Print(Array(items), depth, fmt))
      ensures buffer == old(buffer) || fresh(buffer)
      decreases items, 1
    {
      if |items| == 0 {
        Place(3, "[]");
        return;
      }
      ghost var before, text := Written(), PrintItems(items, depth + 1, fmt);
      Append(1, "[");
      PrintItemsBehind(items, depth + 1, fmt);
      Place(2, "]");
      Associative(before, "[", text);
      Associative(before, "[" + text, "]");
    }

    method PrintItemsBehind(items: seq<Value>, depth: nat, fmt: bool)
      requires Valid() && items != [] && forall i :: 0 <= i < |items| ==> Printable(items[i])
      modifies this, buffer
      ensures Valid() && Written() == old(Written()) + PrintItems(items, depth, fmt)
      ensures buffer == old(buffer) || fresh(buffer)
      decreases items, 0
    {
      ghost var before, texts := Written(), Texts(items, depth, fmt);
      assert before + "" == before;
      for i := 0 to |items|
        invariant Valid() && Written() == before + Joined(texts, i, fmt)
        invariant buffer == old(buffer) || fresh(buffer)
      {
        NextItem(before, texts, i, fmt);
        PrintItem(items[i], i + 1 == |items|, depth, fmt, texts[i], After(i, |texts|, fmt));
      }
      JoinedIsPrintItems(items, depth, fmt);
    }

    /** One item and the separator behind it. */
    method PrintItem(v: Value, last: bool, depth: nat, fmt: bool, ghost text: string, ghost sep: string)
      requires Valid() && Printable(v) && text == Print(v, depth, fmt) && sep == if last then "" else Separator(fmt)
      modifies this, buffer
      ensures Valid() && Written() == old(Written()) + text + sep
      ensures buffer == old(buffer) || fresh(buffer)
      decreases v, 5
    {
      PrintAndAdvance(v, depth, fmt);
      if !last {
        Append((if fmt then 2 else 1) + 1, Separator(fmt));
      } else {
        assert Written() + "" == Written();
      }
    }

    /** `print_value` followed by `update`. */
    method PrintAndAdvance(v: Value, depth: nat, fmt: bool)
      requires Valid() && Printable(v)
      modifies this, buffer
      ensures Valid() && Written() == old(Written()) + Print(v, depth, fmt)
      ensures buffer == old(buffer) || fresh(buffer)
      decreases v, 4
    {
      ghost var s := Written() + Print(v, depth, fmt);
      PrintNulFree(v, depth, fmt);
      var start := PrintValue(v, depth, fmt);
      Update(s);
    }

    method PrintNameAndAdvance(name: string)
      requires Valid() && NulFree(name)
      modifies this, buffer
      ensures Valid() && Written() == old(Written()) + Quoted(name)
      ensures buffer == old(buffer) || fresh(buffer)
    {
      ghost var s := Written() + Quoted(name);
      EscapeNulFree(name);
      PrintString(name);
      Update(s);
    }

    /** The code reuses its saved start index as a loop counter when formatting, so the position it returns
        is the depth; that is right only for the outermost object. */
    method PrintObject(ms: seq<Member>, depth: nat, fmt: bool) returns (start: nat)
      requires Valid() && forall i :: 0 <= i < |ms| ==> NulFree(ms[i].name) && Printable(ms[i].value)
      modifies this, buffer
      ensures Valid() && old(offset) <= offset <= old(offset) + |Print(Object(ms), depth, fmt)|
      ensures Holds(buffer, old(Written()) + Print(Object(ms), depth, fmt))
      ensures buffer == old(buffer) || fresh(buffer)
      ensures start == if fmt && ms != [] then depth else old(offset)
      decreases ms, 2
    {
      start := offset;
      if |ms| == 0 {
        TabsLength(depth - 1);
        Place(if fmt then depth + 4 else 3, "{" + When(fmt, "\n" + Tabs(depth - 1)) + "}");
      } else {
        ObjectPieces(Written(), ms, depth, fmt);
        PrintBraces(ms, depth, fmt, PrintMembers(ms, depth + 1, fmt));
        if fmt {
          start := depth;
        }
      }
    }

    method PrintBraces(ms: seq<Member>, depth: nat, fmt: bool, ghost text: string)
      requires Valid() && ms != [] && forall i :: 0 <= i < |ms| ==> NulFree(ms[i].name) && Printable(ms[i].value)
      requires text == PrintMembers(ms, depth + 1, fmt)
      modifies this, buffer
      ensures Valid() && old(offset) <= offset <= old(offset) + |"{" + When(fmt, "\n")| + |text|
      ensures Holds(buffer, old(Written()) + ("{" + When(fmt, "\n")) + text + (When(fmt, Tabs(depth)) + "}"))
      ensures buffer == old(buffer) || fresh(buffer)
      decreases ms, 1
    {
      TabsLength(depth);
      Append((if fmt then 2 else 1) + 1, "{" + When(fmt, "\n"));
      PrintMembersBehind(ms, depth + 1, fmt);
      Place(if fmt then depth + 2 else 2, When(fmt, Tabs(depth)) + "}");
    }

    method PrintMembersBehind(ms: seq<Member>, depth: nat, fmt: bool)
      requires Valid() && ms != [] && forall i :: 0 <= i < |ms| ==> NulFree(ms[i].name) && Printable(ms[i].value)
      modifies this, buffer
      ensures Valid() && Written() == old(Written()) + PrintMembers(ms, depth, fmt)
      ensures buffer == old(buffer) || fresh(buffer)
      decreases ms, 0
    {
      ghost var before, names, texts := Written(), NameTexts(ms), ValueTexts(ms, depth, fmt);
      assert before + "" == before;
      for i := 0 to |ms|
        invariant Valid() && Written() == before + JoinedMembers(names, texts, i, depth, fmt)
        invariant buffer == old(buffer) || fresh(buffer)
      {
        NextMember(before, names, texts, i, depth, fmt, MemberText(names[i], texts[i], i == |ms| - 1, depth, fmt));
        PrintMember(ms[i], i == |ms| - 1, depth, fmt);
      }
      JoinedIsPrintMembers(ms, depth, fmt);
    }

    method PrintMember(m: Member, last: bool, depth: nat, fmt: bool)
      requires Valid() && NulFree(m.name) && Printable(m.value)
      modifies this, buffer
      ensures Valid()
      ensures Written() == old(Written()) + JsonPieces.MemberText(Quoted(m.name), Print(m.value, depth, fmt), last, depth, fmt)
      ensures buffer == old(buffer) || fresh(buffer)
      decreases m, 5
    {
      ghost var before := Written();
      TabsLength(depth);
      if fmt {
        Append(depth, Tabs(depth));
      }
      PrintNameAndAdvance(m.name);
      Append(if fmt then 2 else 1, ":" + When(fmt, "\t"));
      PrintAndAdvance(m.value, depth, fmt);
      Append((if fmt then 1 else 0) + (if last then 0 else 1) + 1, MemberEnd(last, fmt));
      var tabs, q, t, p, e := When(fmt, Tabs(depth)), Quoted(m.name), When(fmt, "\t"), Print(m.value, depth, fmt), MemberEnd(last, fmt);
      assert before + "" == before;
      Associative(before + tabs + q, ":", t);
      SixPieces(before, tabs, q, ":", t, p, e);
    }
  }

  lemma ObjectPieces(before: string, ms: seq<Member>, depth: nat, fmt: bool)
    requires ms != []
    ensures var open, text := "{" + When(fmt, "\n"), PrintMembers(ms, depth + 1, fmt);
            var close := When(fmt, Tabs(depth)) + "}";
            && before + open + text + close == before + Print(Object(ms), depth, fmt)
            && |open| + |text| + |close| == |Print(Object(ms), depth, fmt)|
  {
    var open, text, tabs := "{" + When(fmt, "\n"), PrintMembers(ms, depth + 1, fmt), When(fmt, Tabs(depth));
    Associative(before + open + text, tabs, "}");
    Associative(before, open, text);
    Associative(before, open + text, tabs);
    Associative(before, open + text + tabs, "}");
  }

  /** `cJSON_PrintBuffered`: for every size of the first block and both formats, the text the returned
      pointer designates is the one the allocating printer produces. */
  method PrintBuffered(v: Value, prebuffer: nat, fmt: bool) returns (out: array<char>, start: nat)
    requires Printable(v) && prebuffer >= 1
    ensures fresh(out) && start == 0 && Holds(out, Print(v, 0, fmt))
  {
    var p := new PrintBuffer(prebuffer);
    start := p.PrintValue(v, 0, fmt);
    out := p.buffer;
    assert "" + Print(v, 0, fmt) == Print(v, 0, fmt);
  }

  /** `cJSON_Print` and `cJSON_PrintUnformatted` beside `cJSON_PrintBuffered`. */
  method PrintersAgree(v: Value, prebuffer: nat, fmt: bool) returns (same: bool)
    requires Printable(v) && prebuffer >= 1
    ensures same
  {
    var a := JsonPrinter.PrintValue(v, 0, fmt);
    var b, start := PrintBuffered(v, prebuffer, fmt);
    ghost var text := Print(v, 0, fmt);
    PrintNulFree(v, 0, fmt);
    var n := Strlen(a, text);
    var m := Strlen(b, text);
    same := start == 0 && n == m && a[..n] == b[..m];
  }
}
