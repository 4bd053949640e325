/** Runs of the link that reach the states in which the driver departs from what one would expect. */
module EsbRuns {
  import opened Common
  import opened EsbDevice
  import opened EsbLink

  ghost predicate Reachable(pc: Config, rc: Config, l: Link) {
    exists ls, ss :: LinkRun(pc, rc, ls, ss) && ls[0] == InitialLink(pc, rc) && ls[|ss|] == l
  }

  lemma ReachableInv(pc: Config, rc: Config, l: Link)
    requires Paired(pc, rc) && Reachable(pc, rc, l)
    ensures LinkInv(pc, rc, l)
  {
    var ls, ss :| LinkRun(pc, rc, ls, ss) && ls[0] == InitialLink(pc, rc) && ls[|ss|] == l;
    InitialLinkInv(pc, rc);
    RunKeepsLink(pc, rc, ls, ss, |ss|);
  }

  lemma InitialReachable(pc: Config, rc: Config)
    ensures Reachable(pc, rc, InitialLink(pc, rc))
  {
    var l := InitialLink(pc, rc);
    assert LinkRun(pc, rc, [l], []);
  }

  lemma Extend(pc: Config, rc: Config, l: Link, s: Step) returns (l': Link)
    requires Paired(pc, rc) && Reachable(pc, rc, l) && Enabled(l, s)
    ensures Sized(pc, l.ptx) && Sized(rc, l.prx)
    ensures l' == Take(pc, rc, l, s) && Reachable(pc, rc, l')
  {
    ReachableInv(pc, rc, l);
    l' := Take(pc, rc, l, s);
    var ls, ss :| LinkRun(pc, rc, ls, ss) && ls[0] == InitialLink(pc, rc) && ls[|ss|] == l;
    assert Leads(pc, rc, l, s, l');
    LinkRunSnoc(pc, rc, ls, ss, s, l');
  }

  lemma LinkRunSnoc(pc: Config, rc: Config, ls: seq<Link>, ss: seq<Step>, s: Step, l': Link)
    requires LinkRun(pc, rc, ls, ss) && Leads(pc, rc, ls[|ss|], s, l')
    ensures LinkRun(pc, rc, ls + [l'], ss + [s])
  {
    var ls', ss' := ls + [l'], ss + [s];
    forall i | 0 <= i < |ss'| ensures Leads(pc, rc, ls'[i], ss'[i], ls'[i + 1]) {
      if i < |ss| {
        assert Leads(pc, rc, ls[i], ss[i], ls[i + 1]);
      }
    }
  }

  /** Both ends ready: nothing queued, nothing unread, the receiver listening. */
  ghost predicate Quiet(l: Link) {
    l.ptx.state == Idle && l.ptx.tx == [] && l.prx.state == Prx && l.prx.rx == []
  }

  /** Payloads of one pipe that the transmitter takes. */
  ghost predicate Sendable(pc: Config, p: Payload) {
    0 < |p.data| <= pc.maxPayload && p.pipe < pc.pipeCount
  }

  lemma ReachQuiet(pc: Config, rc: Config) returns (l: Link)
    requires Paired(pc, rc)
    ensures Reachable(pc, rc, l) && Quiet(l) && l.accepted == []
  {
    InitialReachable(pc, rc);
    l := Extend(pc, rc, InitialLink(pc, rc), PrxCall(CallStartRx));
  }

  /** A write to an idle transmitter in automatic mode starts a transaction at once. */
  lemma Send(pc: Config, rc: Config, l: Link, p: Payload) returns (l': Link, h: Payload)
    requires Paired(pc, rc) && pc.txMode == Auto && Reachable(pc, rc, l) && Quiet(l) && Sendable(pc, p)
    ensures Reachable(pc, rc, l')
    ensures l'.ptx.state == PtxTxAck && l'.ptx.tx == [h] && l'.prx == l.prx
    ensures h == p.(pid := (CountOn(l.accepted, p.pipe) + 1) % (PID_MAX + 1))
    ensures l'.accepted == l.accepted + [h] && l'.attempts == 0
    ensures l'.ptx.remaining == pc.retransmitCount && l'.stored == l.stored && l'.removed == l.removed
  {
    h := HeadFor(pc, rc, l, p);
    l' := Extend(pc, rc, l, PtxCall(CallWrite(Some(p))));
    WriteStarts(pc, rc, l, p, h);
  }

  lemma HeadFor(pc: Config, rc: Config, l: Link, p: Payload) returns (h: Payload)
    requires Paired(pc, rc) && Reachable(pc, rc, l) && Sendable(pc, p)
    ensures |l.ptx.pids| == pc.pipeCount && h == p.(pid := NextPid(l.ptx.pids[p.pipe]))
    ensures h.pid == (CountOn(l.accepted, p.pipe) + 1) % (PID_MAX + 1)
  {
    PidsCount(pc, rc, l, p.pipe);
    h := p.(pid := NextPid(l.ptx.pids[p.pipe]));
    NextPidCounts(CountOn(l.accepted, p.pipe));
  }

  lemma PidsCount(pc: Config, rc: Config, l: Link, pipe: nat)
    requires Paired(pc, rc) && Reachable(pc, rc, l) && pipe < pc.pipeCount
    ensures |l.ptx.pids| == pc.pipeCount && l.ptx.pids[pipe] == CountOn(l.accepted, pipe) % (PID_MAX + 1)
  {
    ReachableInv(pc, rc, l);
  }

  lemma NextPidCounts(n: nat)
    ensures NextPid(n % (PID_MAX + 1)) == (n + 1) % (PID_MAX + 1)
  {}

  lemma WriteStarts(pc: Config, rc: Config, l: Link, p: Payload, h: Payload)
    requires Sized(pc, l.ptx) && Sized(rc, l.prx) && pc.mode == PTX && pc.txMode == Auto && !pc.selectiveAutoAck
    requires pc.txSize > 0 && Sendable(pc, p) && l.ptx.state == Idle && l.ptx.tx == []
    requires h == p.(pid := NextPid(l.ptx.pids[p.pipe]))
    ensures var l' := Take(pc, rc, l, PtxCall(CallWrite(Some(p))));
            && l'.ptx.state == PtxTxAck && l'.ptx.tx == [h] && l'.ptx.remaining == pc.retransmitCount
            && l' == l.(ptx := l'.ptx, accepted := l.accepted + [h], attempts := 0)
  {
    WriteAppends(pc, l.ptx, Some(p), h);
    assert [] + [h] == [h];
  }

  /** An intact frame reaches the listening receiver. */
  lemma Hear(pc: Config, rc: Config, l: Link) returns (l': Link)
    requires Paired(pc, rc) && Reachable(pc, rc, l)
    requires l.ptx.state == PtxTxAck && l.prx.state == Prx && l.prx.rx == []
    ensures Reachable(pc, rc, l') && l'.ptx.tx != []
    ensures l'.ptx == OnTx(l.ptx) && l'.prx.state == PrxSendAck && |l'.prx.rx| <= 1
    ensures l'.accepted == l.accepted && l'.attempts == l.attempts + 1
  {
    ReachableInv(pc, rc, l);
    HeadPid(pc, l);
    ReceiverTakesHead(pc, rc, l, l.ptx.tx[0]);
    l' := Extend(pc, rc, l, FrameEnds(Intact, l.ptx.tx[0]));
  }

  /** The acknowledgement is not heard. */
  lemma LoseAck(pc: Config, rc: Config, l: Link) returns (l': Link)
    requires Paired(pc, rc) && Reachable(pc, rc, l) && l.ptx.state == PtxRxAck && l.prx.state == PrxSendAck
    ensures Reachable(pc, rc, l') && Active(l'.ptx) && l'.ptx == l.ptx && l'.prx.state == Prx
    ensures l'.ptx.tx != [] && HeadStored(rc, l')
  {
    ReachableInv(pc, rc, l);
    l' := Extend(pc, rc, l, AckEnds(false));
  }

  /** The only payload is acknowledged and read. */
  lemma Settle(pc: Config, rc: Config, l: Link) returns (l': Link)
    requires Paired(pc, rc) && Reachable(pc, rc, l) && l.ptx.state == PtxRxAck && l.prx.state == PrxSendAck
    requires |l.ptx.tx| == 1 && |l.prx.rx| <= 1
    ensures Reachable(pc, rc, l') && Quiet(l') && l'.accepted == l.accepted
  {
    AckAdvances(pc, l.ptx, Radio(true, true, l.ptx.txAddress, l.prx.txBuffer));
    var l1 := Extend(pc, rc, l, AckEnds(true));
    l' := Extend(pc, rc, l1, PrxCall(CallRead));
  }

  lemma CountGrows(ps: seq<Payload>, h: Payload)
    ensures CountOn(ps + [h], h.pipe) == CountOn(ps, h.pipe) + 1
  {
    CountOnSnoc(ps, h, h.pipe);
  }

  /** A payload sent, acknowledged and read leaves everything quiet again. */
  lemma Deliver(pc: Config, rc: Config, l: Link, p: Payload) returns (l': Link)
    requires Paired(pc, rc) && pc.txMode == Auto && Reachable(pc, rc, l) && Quiet(l) && Sendable(pc, p)
    ensures Reachable(pc, rc, l') && Quiet(l')
    ensures CountOn(l'.accepted, p.pipe) == CountOn(l.accepted, p.pipe) + 1
  {
    var l1, h := Send(pc, rc, l, p);
    CountGrows(l.accepted, h);
    var l2 := Hear(pc, rc, l1);
    l' := Settle(pc, rc, l2);
  }

  /** A payload is stored twice: the acknowledgement of the first one is lost and the receiver flushes before
      the repetition. */
  lemma FlushCanDuplicate(pc: Config, rc: Config, p: Payload, stale: Payload) returns (l: Link)
    requires Paired(pc, rc) && pc.txMode == Auto && Sendable(pc, p)
    ensures Reachable(pc, rc, l) && Active(l.ptx) && l.ptx.tx != [] && l.prx.state == Prx && HeadStored(rc, l)
    ensures var h := l.ptx.tx[0];
            && h.pipe < |l.prx.pipes|
            && OnRx(rc, FlushRx(l.prx), Radio(true, true, h.pipe, FrameOf(h)), stale).rx == [h]
  {
    l := FirstUnacknowledged(pc, rc, p);
    ReachableInv(pc, rc, l);
    FlushHarmlessIff(pc, rc, l, stale);
  }

  /** The first payload is stored, but its acknowledgement was lost. */
  lemma FirstUnacknowledged(pc: Config, rc: Config, p: Payload) returns (l: Link)
    requires Paired(pc, rc) && pc.txMode == Auto && Sendable(pc, p)
    ensures Reachable(pc, rc, l) && Active(l.ptx) && l.ptx.tx == [p.(pid := 1)]
    ensures l.prx.state == Prx && HeadStored(rc, l)
  {
    var heard := FirstHeard(pc, rc, p);
    l := LoseAck(pc, rc, heard);
  }

  lemma FirstHeard(pc: Config, rc: Config, p: Payload) returns (l: Link)
    requires Paired(pc, rc) && pc.txMode == Auto && Sendable(pc, p)
    ensures Reachable(pc, rc, l) && l.ptx.state == PtxRxAck && l.ptx.tx == [p.(pid := 1)] && l.prx.state == PrxSendAck
  {
    var quiet := DeliverMany(pc, rc, p, 0);
    var sent, h := Send(pc, rc, quiet, p);
    l := Hear(pc, rc, sent);
  }

  lemma NotYetStored(pc: Config, rc: Config, l: Link, l': Link)
    requires Paired(pc, rc) && Reachable(pc, rc, l) && Quiet(l)
    requires l'.stored == l.stored && l'.removed == l.removed
    ensures !HeadStored(rc, l')
  {
    ReachableInv(pc, rc, l);
  }

  /** Three payloads delivered, the fourth on its way with packet ID 0. */
  lemma FourthOut(pc: Config, rc: Config, p: Payload) returns (l: Link)
    requires Paired(pc, rc) && pc.txMode == Auto && Sendable(pc, p)
    ensures Reachable(pc, rc, l) && l.ptx.state == PtxTxAck && l.ptx.tx == [p.(pid := 0)]
    ensures l.prx.state == Prx && !HeadStored(rc, l)
  {
    var before := DeliverMany(pc, rc, p, 3);
    var h;
    l, h := Send(pc, rc, before, p);
    NotYetStored(pc, rc, before, l);
  }

  lemma {:induction false} DeliverMany(pc: Config, rc: Config, p: Payload, n: nat) returns (l: Link)
    requires Paired(pc, rc) && pc.txMode == Auto && Sendable(pc, p)
    ensures Reachable(pc, rc, l) && Quiet(l) && CountOn(l.accepted, p.pipe) == n
  {
    if n == 0 {
      l := ReachQuiet(pc, rc);
    } else {
      var before := DeliverMany(pc, rc, p, n - 1);
      l := Deliver(pc, rc, before, p);
    }
  }

  /** A payload is lost: the fourth one of a pipe has packet ID 0, and if its CRC is 0 as well a receiver
      that has flushed acknowledges it and drops it. */
  lemma FlushCanLose(pc: Config, rc: Config, p: Payload, stale: Payload) returns (l: Link)
    requires Paired(pc, rc) && pc.txMode == Auto && Sendable(pc, p)
    requires rc.crc(p.pipe, FrameOf(p.(pid := 0))) == 0
    ensures Reachable(pc, rc, l) && Active(l.ptx) && l.ptx.tx != [] && l.prx.state == Prx && !HeadStored(rc, l)
    ensures var h := l.ptx.tx[0];
            && h.pipe < |l.prx.pipes|
            && var prx := OnRx(rc, FlushRx(l.prx), Radio(true, true, h.pipe, FrameOf(h)), stale);
            prx.rx == [] && prx.state == PrxSendAck
  {
    l := FourthOut(pc, rc, p);
    ReachableInv(pc, rc, l);
    FlushHarmlessIff(pc, rc, l, stale);
  }

  /** The number of attempts is lost: of two queued payloads the first needs two frames, its acknowledgement
      starts the second, and what the event handler then reads is 1. */
  lemma AttemptsCanBeLost(pc: Config, rc: Config, p: Payload) returns (l: Link, l': Link)
    requires Paired(pc, rc) && pc.txMode == Auto && pc.txSize >= 2 && pc.retransmitCount >= 1 && Sendable(pc, p)
    ensures Reachable(pc, rc, l) && l.ptx.state == PtxRxAck && l.prx.state == PrxSendAck && l.attempts == 2
    ensures Sized(pc, l.ptx) && Sized(rc, l.prx) && l' == Take(pc, rc, l, AckEnds(true))
    ensures |l'.removed| == |l.removed| + 1 && l'.ptx.lastAttempts == 1
  {
    var l0 := ReachQuiet(pc, rc);
    var l1, h := Send(pc, rc, l0, p);
    var l2 := Queue(pc, rc, l1, p);
    var l3 := Repeat(pc, rc, l2, p);
    l := Hear(pc, rc, l3);
    l' := Extend(pc, rc, l, AckEnds(true));
  }

  /** A payload written during a transaction waits. */
  lemma Queue(pc: Config, rc: Config, l: Link, p: Payload) returns (l': Link)
    requires Paired(pc, rc) && Reachable(pc, rc, l) && l.ptx.state == PtxTxAck && |l.ptx.tx| < pc.txSize && Sendable(pc, p)
    ensures Reachable(pc, rc, l') && |l'.ptx.tx| == |l.ptx.tx| + 1 && l'.prx == l.prx && l'.attempts == l.attempts
    ensures l'.ptx.state == PtxTxAck && l'.ptx.remaining == l.ptx.remaining
  {
    var q := HeadFor(pc, rc, l, p);
    l' := Extend(pc, rc, l, PtxCall(CallWrite(Some(p))));
    WriteAppends(pc, l.ptx, Some(p), q);
  }

  /** A frame is lost and the transmitter tries again. */
  lemma Repeat(pc: Config, rc: Config, l: Link, p: Payload) returns (l': Link)
    requires Paired(pc, rc) && Reachable(pc, rc, l) && l.ptx.state == PtxTxAck && l.ptx.remaining > 0
    ensures Reachable(pc, rc, l') && l'.prx == l.prx && l'.attempts == l.attempts + 1
    ensures l'.ptx.state == PtxTxAck && l'.ptx.tx == l.ptx.tx
  {
    var l1 := Extend(pc, rc, l, FrameEnds(Lost, p));
    l' := Extend(pc, rc, l1, AckTimeout);
  }
}
