/** Event descriptions: the device prints one comma-separated line per registered event type and an empty
    line at the end; the host splits them again. */
module ProfilerInfo {
  import opened Common
  import opened Decimal

  datatype Description = Description(name: string, id: nat, types: seq<string>, labels: seq<string>)

  /** Names and labels that are C strings without the separators of the text. */
  predicate Plain(s: string) { ',' !in s && '\n' !in s && '\0' !in s }

  ghost predicate AllPlain(fs: seq<string>) { forall i :: 0 <= i < |fs| ==> Plain(fs[i]) }

  ghost predicate WellFormed(d: Description) {
    Plain(d.name) && AllPlain(d.types) && AllPlain(d.labels) && |d.types| == |d.labels|
  }

  /** The position of the first `c`, or the length when there is none. */
  function Find(s: string, c: char): (i: nat)
    ensures i <= |s| && c !in s[..i] && (i < |s| ==> s[i] == c)
    ensures i < |s| <==> c in s
  {
    if s == [] || s[0] == c then 0
    else
      var i := 1 + Find(s[1..], c);
      assert s[..i] == [s[0]] + s[1..][..i - 1];
      i
  }

  lemma FindUnique(s: string, c: char, i: nat)
    requires i < |s| && s[i] == c && c !in s[..i]
    ensures Find(s, c) == i
  {}

  lemma FindAfter(f: string, c: char, rest: string)
    requires c !in f
    ensures Find(f + [c] + rest, c) == |f|
  {
    var s := f + [c] + rest;
    assert s[..|f|] == f;
    FindUnique(s, c, |f|);
  }

  // Device

  /** Fields with commas between them. */
  function Join(fs: seq<string>): string
    requires fs != []
  {
    if |fs| == 1 then fs[0] else fs[0] + "," + Join(fs[1..])
  }

  function Fields(d: Description): seq<string> {
    [d.name, Digits(d.id)] + d.types + d.labels
  }

  /** The line `profiler_register_event_type` leaves in the description table. */
  function Line(d: Description): string {
    Join(Fields(d))
  }

  /** What `send_system_description` writes. */
  function Text(ds: seq<Description>): string {
    if ds == [] then "\n" else Line(ds[0]) + "\n" + Text(ds[1..])
  }

  /** Fields, each behind a comma. */
  function Listed(fs: seq<string>): string {
    if fs == [] then "" else "," + fs[0] + Listed(fs[1..])
  }

  lemma {:induction false} JoinListed(f: string, fs: seq<string>)
    ensures Join([f] + fs) == f + Listed(fs)
    decreases |fs|
  {
    var all := [f] + fs;
    assert all[1..] == fs;
    if fs != [] {
      JoinListed(fs[0], fs[1..]);
      assert fs == [fs[0]] + fs[1..];
      Associative(",", fs[0], Listed(fs[1..]));
      Associative(f, ",", fs[0] + Listed(fs[1..]));
    }
  }

  lemma {:induction false} ListedConcat(a: seq<string>, b: seq<string>)
    ensures Listed(a + b) == Listed(a) + Listed(b)
  {
    if a == [] {
      assert a + b == b;
    } else {
      ListedConcat(a[1..], b);
      assert (a + b)[1..] == a[1..] + b;
      Associative("," + a[0], Listed(a[1..]), Listed(b));
    }
  }

  /** A line reads name, identifier in decimal, all types, all labels. */
  lemma LineInOrder(d: Description)
    ensures Line(d) == d.name + ("," + Digits(d.id) + (Listed(d.types) + Listed(d.labels)))
  {
    var rest := [Digits(d.id)] + (d.types + d.labels);
    assert Fields(d) == [d.name] + rest;
    JoinListed(d.name, rest);
    assert rest[1..] == d.types + d.labels;
    ListedConcat(d.types, d.labels);
  }

  function LinesOf(ds: seq<Description>): seq<string> {
    seq(|ds|, i requires 0 <= i < |ds| => Line(ds[i]) + "\n")
  }

  /** The text is one line per description and an empty line behind them. */
  lemma {:induction false} TextInLines(ds: seq<Description>)
    ensures Text(ds) == Concat(LinesOf(ds)) + "\n"
    decreases |ds|
  {
    if ds != [] {
      TextInLines(ds[1..]);
      assert LinesOf(ds)[1..] == LinesOf(ds[1..]);
      Associative(Line(ds[0]) + "\n", Concat(LinesOf(ds[1..])), "\n");
    }
  }

  lemma {:induction false} JoinSnoc(fs: seq<string>, f: string)
    requires fs != []
    ensures Join(fs + [f]) == Join(fs) + "," + f
  {
    if |fs| == 1 {
      assert (fs + [f])[1..] == [f];
    } else {
      assert (fs + [f])[1..] == fs[1..] + [f];
      JoinSnoc(fs[1..], f);
      var a, b := fs[0] + ",", Join(fs[1..]);
      assert a + (b + "," + f) == a + b + "," + f;
    }
  }

  lemma {:induction false} JoinGrows(fs: seq<string>, more: seq<string>)
    requires fs != []
    ensures |Join(fs)| <= |Join(fs + more)|
  {
    if more == [] {
      assert fs + more == fs;
    } else {
      var n := |more| - 1;
      JoinGrows(fs, more[..n]);
      JoinSnoc(fs + more[..n], more[n]);
      assert fs + more == fs + more[..n] + [more[n]];
    }
  }

  // Host

  /** Python's `str.split(',')`. */
  function Split(s: string): seq<string>
    decreases |s|
  {
    var i := Find(s, ',');
    if i == |s| then [s] else [s[..i]] + Split(s[i + 1..])
  }

  lemma SplitHead(f: string, rest: string)
    requires ',' !in f
    ensures Split(f + "," + rest) == [f] + Split(rest)
  {
    var s := f + "," + rest;
    FindAfter(f, ',', rest);
    assert s[..|f|] == f && s[|f| + 1..] == rest;
  }

  lemma {:induction false} SplitJoin(fs: seq<string>)
    requires fs != [] && forall i :: 0 <= i < |fs| ==> ',' !in fs[i]
    ensures Split(Join(fs)) == fs
  {
    if |fs| == 1 {
      assert Find(fs[0], ',') == |fs[0]|;
    } else {
      SplitJoin(fs[1..]);
      SplitHead(fs[0], Join(fs[1..]));
    }
  }

  /** The fields of a line, assigned as the host's two index ranges assign them. */
  function FromFields(fs: seq<string>): Option<Description> {
    if |fs| >= 2 && AllDigits(fs[1]) then
      var half := |fs| / 2 + 1;
      Some(Description(fs[0], ValueOf(fs[1]), fs[2..half], fs[half..]))
    else None
  }

  /** Every well-formed description is recovered from its line. */
  lemma LineRoundTrip(d: Description)
    requires WellFormed(d)
    ensures FromFields(Split(Line(d))) == Some(d)
  {
    var fs := Fields(d);
    forall i | 0 <= i < |fs| ensures ',' !in fs[i] {
      assert fs[i] == d.name || fs[i] == Digits(d.id) || fs[i] in d.types || fs[i] in d.labels;
    }
    SplitJoin(fs);
    ValueOfDigits(d.id);
    var half := |fs| / 2 + 1;
    assert half == 2 + |d.types|;
    assert fs[2..half] == d.types;
    assert fs[half..] == d.labels;
  }

  lemma {:induction false} JoinWithout(fs: seq<string>, c: char)
    requires c != ',' && fs != [] && forall i :: 0 <= i < |fs| ==> c !in fs[i]
    ensures c !in Join(fs)
  {
    if |fs| > 1 {
      JoinWithout(fs[1..], c);
    }
  }

  lemma LineIsOneLine(d: Description)
    requires WellFormed(d)
    ensures '\n' !in Line(d) && '\0' !in Line(d) && Line(d) != []
  {
    var fs := Fields(d);
    forall i | 0 <= i < |fs| ensures '\n' !in fs[i] && '\0' !in fs[i] {
      assert fs[i] == d.name || fs[i] == Digits(d.id) || fs[i] in d.types || fs[i] in d.labels;
    }
    JoinWithout(fs, '\n');
    JoinWithout(fs, '\0');
  }

  type Registry = map<nat, Description>

  function RegisterAll(m: Registry, ds: seq<Description>): Registry
    decreases |ds|
  {
    if ds == [] then m else RegisterAll(m[ds[0].id := ds[0]], ds[1..])
  }

  /** Identifiers are handed out in registration order, so no description replaces another. */
  lemma {:induction false} RegisterAllKeepsEach(m: Registry, ds: seq<Description>, first: nat)
    requires forall i :: 0 <= i < |ds| ==> ds[i].id == first + i
    ensures forall i :: 0 <= i < |ds| ==> ds[i].id in RegisterAll(m, ds) && RegisterAll(m, ds)[ds[i].id] == ds[i]
    ensures forall k :: k in m && k < first ==> k in RegisterAll(m, ds) && RegisterAll(m, ds)[k] == m[k]
    decreases |ds|
  {
    if ds != [] {
      var m', rest := m[ds[0].id := ds[0]], ds[1..];
      RegisterAllKeepsEach(m', rest, first + 1);
      assert first in m' && m'[first] == ds[0];
      forall i | 0 <= i < |ds|
        ensures ds[i].id in RegisterAll(m, ds) && RegisterAll(m, ds)[ds[i].id] == ds[i]
      {
        if i > 0 {
          assert rest[i - 1] == ds[i];
        }
      }
    }
  }

  /** The two loops that sort the fields of a line into types and labels. */
  method AssignFields(fields: seq<string>) returns (d: Description)
    requires FromFields(fields).Some?
    ensures FromFields(fields) == Some(d)
  {
    var types, labels: seq<string> := [], [];
    for k := 2 to |fields| / 2 + 1
      invariant types == fields[2..k]
    {
      types := types + [fields[k]];
    }
    for k := |fields| / 2 + 1 to |fields|
      invariant labels == fields[|fields| / 2 + 1..k]
    {
      labels := labels + [fields[k]];
    }
    assert labels == fields[|fields| / 2 + 1..];
    d := Description(fields[0], ValueOf(fields[1]), types, labels);
  }

  class InfoReader {
    var descBuf: string
    /** What further reads of the info channel will return. */
    var channel: seq<string>
    var registered: Registry

    ghost function Pending(): string
      reads this
    {
      descBuf + Concat(channel)
    }

    constructor (channel: seq<string>)
      ensures Pending() == Concat(channel) && registered == map[]
    {
      descBuf, this.channel, registered := "", channel, map[];
    }

    /** Reads one line. The empty line that ends the descriptions stays in the buffer. */
    method ReadSingleDescription(ghost line: string, ghost after: string) returns (d: Option<Description>)
      requires Pending() == line + ['\n'] + after && '\n' !in line
      requires line == [] || FromFields(Split(line)).Some?
      modifies this`descBuf, this`channel
      ensures Pending() == if line == [] then old(Pending()) else after
      ensures d == if line == [] then None else FromFields(Split(line))
    {
      assert Pending()[|line|] == '\n';
      while '\n' !in descBuf
        invariant Pending() == old(Pending())
        decreases |channel|
      {
        assert channel == [] ==> Pending() == descBuf;
        Associative(descBuf, channel[0], Concat(channel[1..]));
        descBuf := descBuf + channel[0];
        channel := channel[1..];
      }
      var i := Find(descBuf, '\n');
      var desc := descBuf[..i];
      FirstLine(descBuf, Concat(channel), line, after);
      if |desc| == 0 {
        return None;
      }
      descBuf := descBuf[i + 1..];
      var t := AssignFields(Split(desc));
      d := Some(t);
    }

    /** The host registers exactly the descriptions the device sent, however the text was cut into reads,
        and stops at the empty line. */
    method ReadAllDescriptions(ghost ds: seq<Description>, ghost after: string)
      requires forall i :: 0 <= i < |ds| ==> WellFormed(ds[i])
      requires Pending() == Text(ds) + after
      modifies this
      ensures registered == RegisterAll(old(registered), ds)
      ensures Pending() == "\n" + after
    {
      ghost var rest := ds;
      var more := true;
      while more
        invariant forall i :: 0 <= i < |rest| ==> WellFormed(rest[i])
        invariant Pending() == Text(rest) + after
        invariant RegisterAll(registered, rest) == RegisterAll(old(registered), ds)
        invariant !more ==> rest == []
        decreases more, |rest|
      {
        ghost var line := if rest == [] then "" else Line(rest[0]);
        TextLine(rest, after);
        var d := ReadSingleDescription(line, if rest == [] then after else Text(rest[1..]) + after);
        if d == None {
          more := false;
        } else {
          registered := registered[d.value.id := d.value];
          rest := rest[1..];
        }
      }
    }
  }

  /** Where the first line of the stream ends, it also ends in the part already read. */
  lemma FirstLine(buf: string, unread: string, line: string, after: string)
    requires buf + unread == line + ['\n'] + after && '\n' !in line && '\n' in buf
    ensures Find(buf, '\n') == |line| < |buf| && buf[..|line|] == line && buf[|line| + 1..] + unread == after
  {
    var i, s := Find(buf, '\n'), buf + unread;
    FindAfter(line, '\n', after);
    assert s[i] == buf[i] && s[..i] == buf[..i];
    FindUnique(s, '\n', i);
    CutLine(buf, unread, i);
    CutLine(line + ['\n'], after, i);
    assert (line + ['\n'])[..i] == line && (line + ['\n'])[i + 1..] == [];
  }

  lemma CutLine(a: string, b: string, i: nat)
    requires i < |a|
    ensures (a + b)[..i] == a[..i] && (a + b)[i + 1..] == a[i + 1..] + b
  {
    SliceAppend(a, b, i);
    SliceAppend(a, b, i + 1);
  }

  lemma TextLine(ds: seq<Description>, after: string)
    requires forall i :: 0 <= i < |ds| ==> WellFormed(ds[i])
    ensures ds == [] ==> Text(ds) + after == "" + ['\n'] + after
    ensures ds != [] ==>
              && Text(ds) + after == Line(ds[0]) + ['\n'] + (Text(ds[1..]) + after)
              && '\n' !in Line(ds[0]) && Line(ds[0]) != []
              && FromFields(Split(Line(ds[0]))) == Some(ds[0])
  {
    if ds != [] {
      LineIsOneLine(ds[0]);
      LineRoundTrip(ds[0]);
      Associative(Line(ds[0]) + "\n", Text(ds[1..]), after);
    }
  }
}
