/** The profiler host: buffers whatever chunks the debug probe returns, cuts them into events, unwraps
    their time stamps and reads the device's event descriptions. */
module ProfilerHost {
  import opened Common
  import opened ProfilerClock
  import opened ProfilerWire

  /** An event as the host stores it; `ticks` is the unwrapped time stamp. */
  datatype HostEvent = HostEvent(id: Byte, ticks: nat, values: seq<int>)

  datatype Received = Received(clock: Clock, events: seq<HostEvent>)

  /** What the host must make of a sequence of device events. */
  function Receive(r: Received, es: seq<Event>): Received {
    if es == [] then r
    else
      var e, r := es[|es| - 1], Receive(r, es[..|es| - 1]);
      var clock := Observe(r.clock, e.stamp);
      Received(clock, r.events + [HostEvent(e.id, e.stamp + clock.overflows * RAW_MAX, e.values)])
  }

  lemma {:induction false} ReceiveTracksClock(ticks: seq<nat>, es: seq<Event>)
    requires |ticks| == |es| && forall i :: 0 <= i < |es| ==> es[i].stamp == ticks[i] % RAW_MAX
    ensures var r := Receive(Received(FRESH, []), es);
            && r.clock == ObserveAll(ticks) && |r.events| == |es|
            && forall i :: 0 <= i < |es| ==>
                 r.events[i] == HostEvent(es[i].id, Computed(ticks[..i + 1]), es[i].values)
  {
    if es != [] {
      var n := |es| - 1;
      ReceiveTracksClock(ticks[..n], es[..n]);
      PrefixesOfPrefix(ticks, n);
      assert ticks[..n + 1] == ticks;
    }
  }

  lemma PrefixesOfPrefix(ticks: seq<nat>, n: nat)
    requires n <= |ticks|
    ensures forall k :: 0 <= k <= n ==> ticks[..n][..k] == ticks[..k]
  {}

  /** End to end: the host stores every event with its true tick, whatever the number of counter wraps,
      if the events come densely and the first is not in the last tenth of the counter's range. */
  lemma TicksRecovered(ticks: seq<nat>, es: seq<Event>)
    requires |ticks| == |es| && forall i :: 0 <= i < |es| ==> es[i].stamp == ticks[i] % RAW_MAX
    requires Dense(ticks) && (ticks != [] ==> !StartsLate(ticks))
    ensures var r := Receive(Received(FRESH, []), es);
            && |r.events| == |es|
            && forall i :: 0 <= i < |es| ==> r.events[i] == HostEvent(es[i].id, ticks[i], es[i].values)
  {
    ReceiveTracksClock(ticks, es);
    if ticks != [] {
      UnwrapExactIff(ticks);
    }
  }

  /** The words of `values` from position `i` on. */
  ghost function WordsFrom(values: seq<int>, i: nat): seq<Byte>
    requires i <= |values|
    decreases |values| - i
  {
    if i == |values| then [] else Le32(ToWord(values[i])) + WordsFrom(values, i + 1)
  }

  lemma {:induction false} WordsSplit(values: seq<int>, i: nat)
    requires i <= |values|
    ensures Words(values[..i]) + WordsFrom(values, i) == Words(values)
    decreases |values| - i
  {
    if i == |values| {
      assert values[..i] == values;
    } else {
      WordsSplit(values, i + 1);
      assert values[..i + 1][..i] == values[..i];
      Associative(Words(values[..i]), Le32(ToWord(values[i])), WordsFrom(values, i + 1));
    }
  }

  lemma PrefixUnique(a: seq<Byte>, b: seq<Byte>, c: seq<Byte>, d: seq<Byte>)
    requires a + b == c + d && |a| == |c|
    ensures a == c && b == d
  {
    assert a == (a + b)[..|a|] && b == (a + b)[|a|..];
  }

  lemma RecordPieces(e: Event, after: seq<Byte>)
    requires e.stamp < WORDS
    ensures Record(e) + after == [e.id] + (Le32(e.stamp) + (Words(e.values) + after))
  {
    Associative([e.id] + Le32(e.stamp), Words(e.values), after);
    Associative([e.id], Le32(e.stamp), Words(e.values) + after);
  }

  lemma ReceiveOne(r: Received, e: Event)
    ensures var clock := Observe(r.clock, e.stamp);
            Receive(r, [e]) ==
            Received(clock, r.events + [HostEvent(e.id, e.stamp + clock.overflows * RAW_MAX, e.values)])
  {
    var es := [e];
    assert es[..|es| - 1] == [];
    assert Receive(r, es[..|es| - 1]) == r;
  }

  /** Receiving goes event by event. */
  lemma ReceiveStep(r: Received, es: seq<Event>, i: nat)
    requires i < |es|
    ensures Receive(Receive(r, es[..i]), [es[i]]) == Receive(r, es[..i + 1])
  {
    ReceiveOne(Receive(r, es[..i]), es[i]);
    assert es[..i + 1][..i] == es[..i];
  }

  lemma StreamStep(types: Types, es: seq<Event>, i: nat)
    requires i <= |es| && AllWellTyped(types, es)
    ensures Stream(types, es[i..]) == if i == |es| then [] else Record(es[i]) + Stream(types, es[i + 1..])
  {
    if i < |es| {
      assert es[i..][1..] == es[i + 1..];
    }
  }

  lemma ReceiveLast(r: Received, es: seq<Event>, e: Event)
    ensures Receive(r, es + [e]) == Receive(Receive(r, es), [e])
  {
    ReceiveOne(Receive(r, es), e);
    assert (es + [e])[..|es|] == es;
  }

  lemma {:induction false} ReceiveSplit(r: Received, es: seq<Event>, i: nat)
    requires i <= |es|
    ensures Receive(Receive(r, es[..i]), es[i..]) == Receive(r, es)
  {
    var n := |es| - 1;
    if i > n {
      assert es[..i] == es && es[i..] == [];
    } else {
      var most, e := es[..n], es[n];
      ReceiveSplit(r, most, i);
      assert es == most + [e] && most[..i] == es[..i] && es[i..] == most[i..] + [e];
      ReceiveLast(r, most, e);
      ReceiveLast(Receive(r, es[..i]), most[i..], e);
    }
  }

  /** Reads that all find something. */
  ghost predicate Flowing(channel: seq<seq<Byte>>) {
    forall i :: 0 <= i < |channel| ==> channel[i] != []
  }

  class Host {
    var bufs: seq<seq<Byte>>
    var bcnt: nat
    var readingData: bool
    /** What further reads of the data channel will return. */
    var channel: seq<seq<Byte>>
    const additionalReadThreshold: nat
    var types: Types
    var overflows: nat
    var afterHalf: bool
    var events: seq<HostEvent>

    /** The byte count agrees with the bytes buffered. */
    ghost predicate Valid()
      reads this
    {
      bcnt == |Concat(bufs)|
    }

    /** All bytes the host has or will get. */
    ghost function Remaining(): seq<Byte>
      reads this
    {
      Concat(bufs) + (if readingData then Concat(channel) else [])
    }

    ghost function View(): Received
      reads this
    {
      Received(Clock(overflows, afterHalf), events)
    }

    constructor (threshold: nat, types: Types, channel: seq<seq<Byte>>)
      ensures Valid() && readingData && Remaining() == Concat(channel)
      ensures View() == Received(FRESH, []) && this.types == types
    {
      bufs, bcnt, readingData := [], 0, true;
      this.channel, this.types, additionalReadThreshold := channel, types, threshold;
      overflows, afterHalf, events := 0, false, [];
    }

    method GetBufferedData(n: nat) returns (buf: seq<Byte>)
      requires Valid() && n <= bcnt
      modifies this`bufs, this`bcnt
      ensures Valid() && |buf| == n
      ensures buf + Concat(bufs) == old(Concat(bufs))
    {
      buf := [];
      while |buf| < n
        invariant |buf| <= n
        invariant buf + Concat(bufs) == old(Concat(bufs)) && bcnt == old(bcnt)
        decreases |bufs|, n - |buf|
      {
        assert bufs != [];
        var tbuf, size := bufs[0], n - |buf|;
        ghost var rest := Concat(bufs[1..]);
        assert Concat(bufs) == tbuf + rest;
        if |tbuf| <= size {
          Associative(buf, tbuf, rest);
          buf := buf + tbuf;
          bufs := bufs[1..];
        } else {
          assert tbuf == tbuf[..size] + tbuf[size..];
          Associative(tbuf[..size], tbuf[size..], rest);
          Associative(buf, tbuf[..size], tbuf[size..] + rest);
          buf := buf + tbuf[..size];
          bufs := [tbuf[size..]] + bufs[1..];
          assert Concat(bufs) == tbuf[size..] + rest;
        }
      }
      bcnt := bcnt - n;
    }

    /** One read of the channel; it may find nothing. */
    method ReadChunk() returns (size: nat)
      requires Valid() && readingData
      modifies this`bufs, this`bcnt, this`channel
      ensures Valid() && Remaining() == old(Remaining())
      ensures channel == (if old(channel) == [] then [] else old(channel)[1..])
      ensures size == if old(channel) == [] then 0 else |old(channel)[0]|
      ensures bcnt == old(bcnt) + size
    {
      var read: seq<Byte> := [];
      ghost var before := Concat(bufs);
      if channel != [] {
        read := channel[0];
        channel := channel[1..];
        Associative(before, read, Concat(channel));
      }
      if |read| > 0 {
        ConcatSnoc(bufs, read);
        bufs := bufs + [read];
        bcnt := bcnt + |read|;
      }
      assert read == [] ==> read + Concat(channel) == Concat(channel);
      size := |read|;
    }

    /** Reads until enough is buffered. Whether the last read was a short while ago depends on the clock. */
    method ReadBytes(n: nat) returns (buf: seq<Byte>)
      requires Valid() && n <= |Remaining()|
      modifies this`bufs, this`bcnt, this`channel
      ensures Valid() && |buf| == n
      ensures buf + Remaining() == old(Remaining())
    {
      var recent: bool := *;
      while readingData
        invariant Valid() && Remaining() == old(Remaining())
        decreases |channel|, !recent
      {
        if recent && bcnt >= n {
          break;
        }
        var size := ReadChunk();
        if size > additionalReadThreshold {
          continue;
        }
        recent := true;
        if bcnt >= n {
          break;
        }
      }
      ghost var later := if readingData then Concat(channel) else [];
      buf := GetBufferedData(n);
      Associative(buf, Concat(bufs), later);
    }

    /** The data words of one event, signed or unsigned as its types say. */
    method ReadValues(tys: seq<string>, ghost values: seq<int>, ghost after: seq<Byte>)
      returns (data: seq<int>)
      requires Valid() && |values| == |tys| && forall i :: 0 <= i < |tys| ==> Fits(values[i], tys[i])
      requires Remaining() == Words(values) + after
      modifies this`bufs, this`bcnt, this`channel
      ensures Valid() && data == values && Remaining() == after
    {
      data := [];
      WordsSplit(values, 0);
      assert values[..0] == [];
      for i := 0 to |tys|
        invariant Valid() && data == values[..i]
        invariant Remaining() == WordsFrom(values, i) + after
      {
        ghost var tail := WordsFrom(values, i + 1) + after;
        Associative(Le32(ToWord(values[i])), WordsFrom(values, i + 1), after);
        var buf := ReadBytes(4);
        PrefixUnique(buf, Remaining(), Le32(ToWord(values[i])), tail);
        Le32RoundTrip(ToWord(values[i]));
        WordRoundTrip(values[i], tys[i]);
        data := data + [FromWord(FromLe32(buf), IsSigned(tys[i]))];
      }
    }

    /** The wrap-around bookkeeping of one time stamp. */
    method UnwrapStamp(raw: nat)
      modifies this`overflows, this`afterHalf
      ensures Clock(overflows, afterHalf) == Observe(old(Clock(overflows, afterHalf)), raw)
    {
      if afterHalf && 10 * raw < 2 * RAW_MAX {
        overflows := overflows + 1;
        afterHalf := false;
      }
      if 10 * raw > 6 * RAW_MAX && 10 * raw < 9 * RAW_MAX {
        afterHalf := true;
      }
    }

    /** The identifier and the raw time stamp of an event. */
    method ReadHeader(ghost e: Event, ghost rest: seq<Byte>) returns (id: Byte, raw: nat)
      requires Valid() && e.stamp < WORDS && Remaining() == [e.id] + (Le32(e.stamp) + rest)
      modifies this`bufs, this`bcnt, this`channel
      ensures Valid() && id == e.id && raw == e.stamp && Remaining() == rest
    {
      var head := ReadBytes(1);
      PrefixUnique(head, Remaining(), [e.id], Le32(e.stamp) + rest);
      var buf := ReadBytes(4);
      PrefixUnique(buf, Remaining(), Le32(e.stamp), rest);
      Le32RoundTrip(e.stamp);
      id, raw := head[0], FromLe32(buf);
    }

    /** One event off the front of the stream. */
    method ReadSingleEvent(ghost e: Event, ghost after: seq<Byte>)
      requires Valid() && WellTyped(types, e) && Remaining() == Record(e) + after
      modifies this`bufs, this`bcnt, this`channel, this`overflows, this`afterHalf, this`events
      ensures Valid() && Remaining() == after
      ensures View() == Receive(old(View()), [e])
    {
      RecordPieces(e, after);
      ReceiveOne(View(), e);
      var id, raw := ReadHeader(e, Words(e.values) + after);
      var tys := types[id];
      UnwrapStamp(raw);
      var ticks := raw + overflows * RAW_MAX;
      var data := ReadValues(tys, e.values, after);
      events := events + [HostEvent(id, ticks, data)];
    }

    /** The event at position `i` of those still to come. */
    method ReadNextEvent(ghost es: seq<Event>, ghost i: nat)
      requires Valid() && i < |es| && AllWellTyped(types, es) && Remaining() == Stream(types, es[i..])
      modifies this`bufs, this`bcnt, this`channel, this`overflows, this`afterHalf, this`events
      ensures Valid() && Remaining() == Stream(types, es[i + 1..])
      ensures View() == Receive(old(View()), [es[i]])
    {
      StreamStep(types, es, i);
      ReadSingleEvent(es[i], Stream(types, es[i + 1..]));
    }

    /** The drain loop of `_read_remaining_events`: it stops with nothing left, having stored exactly the
        events the device wrote, however their bytes were cut into chunks. */
    method ReadRemainingEvents(ghost es: seq<Event>)
      requires Valid() && AllWellTyped(types, es) && Concat(bufs) == Stream(types, es)
      modifies this`bufs, this`bcnt, this`channel, this`overflows, this`afterHalf, this`events, this`readingData
      ensures Valid() && bcnt == 0
      ensures View() == Receive(old(View()), es)
    {
      readingData := false;
      ghost var i := 0;
      assert es[..0] == [] && es[0..] == es;
      while bcnt != 0
        invariant Valid() && !readingData && types == old(types)
        invariant 0 <= i <= |es| && Remaining() == Stream(types, es[i..])
        invariant View() == Receive(old(View()), es[..i])
        decreases |es| - i
      {
        StreamStep(types, es, i);
        ReceiveStep(old(View()), es, i);
        ReadNextEvent(es, i);
        i := i + 1;
      }
      StreamStep(types, es, i);
      assert es[..i] == es;
    }

    /** The reads of `disconnect`, after the device was told to stop: `parts` is how they divide what is left. */
    method Disconnect(parts: seq<seq<Byte>>)
      requires Valid() && readingData && Flowing(parts) && Concat(parts) == Concat(channel)
      modifies this`bufs, this`bcnt, this`channel
      ensures Valid() && Concat(bufs) == old(Remaining())
    {
      channel := parts;
      var size := ReadChunk();
      while size > 0
        invariant Valid() && Remaining() == old(Remaining()) && Flowing(channel)
        invariant size == 0 ==> channel == []
        decreases |channel|, size
      {
        size := ReadChunk();
      }
    }

    /** The loop of `read_events_rtt`, ended by the clock after `live` events. */
    method ReadLiveEvents(live: nat, ghost es: seq<Event>)
      requires Valid()
      requires live <= |es| && AllWellTyped(types, es) && Remaining() == Stream(types, es)
      modifies this`bufs, this`bcnt, this`channel, this`overflows, this`afterHalf, this`events
      ensures Valid()
      ensures AllWellTyped(types, es[live..]) && Remaining() == Stream(types, es[live..])
      ensures View() == Receive(old(View()), es[..live])
    {
      assert es[..0] == [] && es[0..] == es;
      for i := 0 to live
        invariant Valid()
        invariant Remaining() == Stream(types, es[i..])
        invariant View() == Receive(old(View()), es[..i])
      {
        ReceiveStep(old(View()), es, i);
        ReadNextEvent(es, i);
      }
    }

    /** A whole session: `live` events are read while the device logs, by reads that may find anything or nothing;
        then the host disconnects, reading what is left as `split` divides it, and drains its buffers. The host
        has stored exactly what the device logged. */
    method ReadEvents(live: nat, split: seq<Byte> -> seq<seq<Byte>>, ghost es: seq<Event>)
      requires Valid() && readingData && forall rest :: Flowing(split(rest)) && Concat(split(rest)) == rest
      requires live <= |es| && AllWellTyped(types, es) && Remaining() == Stream(types, es)
      modifies this`bufs, this`bcnt, this`channel, this`overflows, this`afterHalf, this`events, this`readingData
      ensures Valid() && bcnt == 0
      ensures View() == Receive(old(View()), es)
    {
      ghost var was, rest := View(), es[live..];
      ReceiveSplit(was, es, live);
      ReadLiveEvents(live, es);
      Disconnect(split(Concat(channel)));
      ReadRemainingEvents(rest);
    }
  }
}
