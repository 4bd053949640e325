/** Descriptions and events together: the host decodes with the types it was told. */
module ProfilerSession {
  import opened Common
  import opened ProfilerClock
  import opened ProfilerWire
  import opened ProfilerHost
  import opened ProfilerInfo
  import opened ProfilerTable

  /** The types of each event a host decodes with, by the descriptions it registered. */
  function TypesOf(registry: Registry): Types {
    map id: Byte | id in registry :: registry[id].types
  }

  /** An event logged for one of the registered types, with one value of that type per argument. */
  ghost predicate Logged(ds: seq<Description>, e: Event) {
    && e.id < |ds| && e.stamp < WORDS && |e.values| == |ds[e.id].types|
    && forall i :: 0 <= i < |e.values| ==> Fits(e.values[i], ds[e.id].types[i])
  }

  lemma LoggedTyped(ds: seq<Description>, e: Event)
    requires forall i :: 0 <= i < |ds| ==> ds[i].id == i
    requires Logged(ds, e)
    ensures WellTyped(TypesOf(RegisterAll(map[], ds)), e)
  {
    RegisterAllKeepsEach(map[], ds, 0);
    assert ds[e.id].id == e.id;
  }

  lemma {:induction false} LoggedWellTyped(ds: seq<Description>, es: seq<Event>)
    requires forall i :: 0 <= i < |ds| ==> ds[i].id == i
    requires forall i :: 0 <= i < |es| ==> Logged(ds, es[i])
    ensures AllWellTyped(TypesOf(RegisterAll(map[], ds)), es)
  {
    if es != [] {
      LoggedTyped(ds, es[0]);
      LoggedWellTyped(ds, es[1..]);
    }
  }

  /** The bytes a device with these descriptions sends for these events. */
  ghost predicate Carries(bytes: seq<Byte>, ds: seq<Description>, es: seq<Event>)
    requires forall i :: 0 <= i < |ds| ==> ds[i].id == i
    requires forall i :: 0 <= i < |es| ==> Logged(ds, es[i])
  {
    LoggedWellTyped(ds, es);
    bytes == Stream(TypesOf(RegisterAll(map[], ds)), es)
  }

  /** Device and host: the host asks for the descriptions, reads the text in whatever pieces `info` returns it, and
      decodes the event stream with the types it found there. If the device logs each event with the types it was
      registered with, the host stores exactly those events. */
  method Session(table: EventTable, info: string -> seq<string>, threshold: nat, channel: seq<seq<Byte>>,
                 live: nat, split: seq<Byte> -> seq<seq<Byte>>, ghost es: seq<Event>)
    returns (host: Host)
    requires table.Valid() && forall text :: Concat(info(text)) == text
    requires forall rest :: Flowing(split(rest)) && Concat(split(rest)) == rest
    requires live <= |es| && forall i :: 0 <= i < |es| ==> Logged(table.registered, es[i])
    requires Carries(Concat(channel), table.registered, es)
    ensures fresh(host) && host.types == TypesOf(RegisterAll(map[], table.registered))
    ensures host.View() == Receive(Received(FRESH, []), es)
  {
    LoggedWellTyped(table.registered, es);
    var sent := table.SendSystemDescription();
    var reader := new InfoReader(info(sent));
    assert sent + "" == sent;
    reader.ReadAllDescriptions(table.registered, "");
    host := new Host(threshold, TypesOf(reader.registered), channel);
    host.ReadEvents(live, split, es);
  }
}
