/** The device's table of event descriptions: fixed-size entries filled by `snprintf` and sent as C strings. */
module ProfilerTable {
  import opened Common
  import opened Decimal
  import opened ProfilerInfo

  /** The entry holds the C string `s`. */
  ghost predicate Entry(entry: array<char>, s: string)
    reads entry
  {
    |s| < entry.Length && entry[..|s|] == s && entry[|s|] == '\0'
  }

  /** `snprintf` at a position of a table entry: the text and a terminating NUL. */
  method Print(entry: array<char>, pos: nat, s: string) returns (end: nat)
    requires pos + |s| < entry.Length
    modifies entry
    ensures end == pos + |s| && entry[..end] == old(entry[..pos]) + s && entry[end] == '\0'
  {
    forall i | 0 <= i < |s| {
      entry[pos + i] := s[i];
    }
    end := pos + |s|;
    entry[end] := '\0';
  }

  /** The loop over types or labels; `before` are the fields printed already. */
  method PrintFields(entry: array<char>, from: nat, fields: seq<string>, ghost before: seq<string>) returns (pos: nat)
    requires before != [] && from == |Join(before)| && Entry(entry, Join(before))
    requires |Join(before + fields)| < entry.Length
    modifies entry
    ensures pos == |Join(before + fields)| && Entry(entry, Join(before + fields))
  {
    pos := from;
    ghost var done := before;
    assert before + fields[..0] == before;
    for t := 0 to |fields|
      invariant done == before + fields[..t]
      invariant pos == |Join(done)| && Entry(entry, Join(done))
    {
      NextField(before, fields, t);
      JoinSnoc(done, fields[t]);
      Associative(Join(done), ",", fields[t]);
      pos := Print(entry, pos, "," + fields[t]);
      done := done + [fields[t]];
    }
    assert fields[..|fields|] == fields;
  }

  /** The next field is part of the line, so it fits where the line fits. */
  lemma NextField(before: seq<string>, fields: seq<string>, t: nat)
    requires before != [] && t < |fields|
    ensures before + fields[..t] + [fields[t]] == before + fields[..t + 1]
    ensures |Join(before + fields[..t + 1])| <= |Join(before + fields)|
  {
    assert fields[..t + 1] == fields[..t] + [fields[t]];
    Associative(before, fields[..t], [fields[t]]);
    assert before + fields[..t + 1] + fields[t + 1..] == before + fields;
    JoinGrows(before + fields[..t + 1], fields[t + 1..]);
  }

  /** One entry: the name and identifier, then every type, then every label. */
  method FillEntry(entry: array<char>, d: Description)
    requires |Line(d)| < entry.Length
    modifies entry
    ensures Entry(entry, Line(d))
  {
    ghost var id := [d.name, Digits(d.id)];
    assert id == [d.name] + [Digits(d.id)];
    JoinSnoc([d.name], Digits(d.id));
    JoinGrows(id, d.types);
    JoinGrows(id + d.types, d.labels);
    var pos := Print(entry, 0, d.name + "," + Digits(d.id));
    assert entry[..pos] == Join(id);
    pos := PrintFields(entry, pos, d.types, id);
    pos := PrintFields(entry, pos, d.labels, id + d.types);
  }

  method Strlen(entry: array<char>, ghost s: string) returns (n: nat)
    requires Entry(entry, s) && '\0' !in s
    ensures n == |s|
  {
    n := 0;
    while entry[n] != '\0'
      invariant n <= |s|
      decreases |s| - n
    {
      assert n < |s|;
      n := n + 1;
    }
  }

  class EventTable {
    const descr: seq<array<char>>
    var numEvents: nat
    /** What has been registered, in order. */
    ghost var registered: seq<Description>

    ghost predicate Valid()
      reads this, descr
    {
      && (forall i, j :: 0 <= i < j < |descr| ==> descr[i] != descr[j])
      && numEvents == |registered| <= |descr|
      && (forall i :: 0 <= i < numEvents ==>
            WellFormed(registered[i]) && registered[i].id == i && Entry(descr[i], Line(registered[i])))
    }

    constructor (descr: seq<array<char>>)
      requires forall i, j :: 0 <= i < j < |descr| ==> descr[i] != descr[j]
      ensures Valid() && this.descr == descr && registered == []
    {
      this.descr := descr;
      numEvents, registered := 0, [];
    }

    /** Identifiers are handed out in the order of registration. */
    method RegisterEventType(name: string, types: seq<string>, labels: seq<string>) returns (id: nat)
      requires Valid() && numEvents < |descr|
      requires var d := Description(name, numEvents, types, labels);
               WellFormed(d) && |Line(d)| < descr[numEvents].Length
      modifies this, descr[numEvents]
      ensures Valid() && id == old(numEvents)
      ensures registered == old(registered) + [Description(name, id, types, labels)]
    {
      id := numEvents;
      var d := Description(name, id, types, labels);
      FillEntry(descr[id], d);
      numEvents := numEvents + 1;
      registered := registered + [d];
    }

    /** Every entry up to its terminator goes out as a line, then an empty line. */
    method SendSystemDescription() returns (sent: string)
      requires Valid()
      ensures sent == Text(registered)
    {
      sent := "";
      ghost var ds := registered;
      assert ds[0..] == ds;
      for t := 0 to numEvents
        invariant sent + Text(ds[t..]) == Text(ds)
      {
        LineIsOneLine(ds[t]);
        var n := Strlen(descr[t], Line(ds[t]));
        TextStep(sent, ds, t);
        sent := sent + descr[t][..n] + "\n";
      }
      sent := sent + "\n";
    }
  }

  lemma TextStep(sent: string, ds: seq<Description>, t: nat)
    requires t < |ds|
    ensures sent + Text(ds[t..]) == sent + Line(ds[t]) + "\n" + Text(ds[t + 1..])
  {
    assert ds[t..][1..] == ds[t + 1..];
    Associative(sent, Line(ds[t]) + "\n", Text(ds[t + 1..]));
    Associative(sent, Line(ds[t]), "\n");
  }
}
