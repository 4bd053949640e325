/** A primary transmitter and a primary receiver on a lossy half-duplex channel.

    The radio delivers a packet at the instant its transmission ends or not at all, so the end of a
    frame and the end of an acknowledgement are steps of both devices at once. Everything else
    interleaves freely: application calls on either side, acknowledgement windows that close early or
    late, transactions that fail and are started again. */
module EsbLink {
  import opened Common
  import opened EsbDevice

  datatype Reception = Lost | Corrupt | Intact

  datatype Step =
    | PtxCall(call: Call)
    | PrxCall(call: Call)
    | FrameEnds(reception: Reception, stale: Payload)
    | AckEnds(heard: bool)
    | AckTimeout

  /** `accepted`, `removed`, `stored` and `read` record every payload written to the transmitter, removed
      from its FIFO, stored by the receiver and read by its application; `attempts` counts the frames
      sent in this transaction. */
  datatype Link = Link(
    ptx: Device, prx: Device,
    accepted: seq<Payload>, removed: seq<Payload>, stored: seq<Payload>, read: seq<Payload>,
    attempts: nat)

  /** Both ends are built alike: same radio checksum, and the receiver has every pipe and room for
      every payload length of the transmitter. */
  ghost predicate Paired(pc: Config, rc: Config) {
    && pc.Valid() && rc.Valid()
    && pc.mode == PTX && rc.mode == PRX
    && !pc.selectiveAutoAck && !rc.selectiveAutoAck
    && pc.crc == rc.crc
    && pc.pipeCount <= rc.pipeCount && pc.maxPayload <= rc.maxPayload
  }

  ghost function InitialLink(pc: Config, rc: Config): Link {
    Link(Initial(pc), Initial(rc), [], [], [], [], 0)
  }

  ghost predicate Active(d: Device) { d.state in {PtxTxAck, PtxRxAck} }

  ghost predicate Enabled(l: Link, s: Step) {
    match s
    case PtxCall(c) => c.CallWrite? || c.CallRead? || c.CallStartTx? || c.CallFlushRx?
    case PrxCall(c) => c.CallWrite? || c.CallRead? || c.CallStartRx? || c.CallStopRx? || c.CallFlushTx?
    case FrameEnds(_, _) => l.ptx.state == PtxTxAck
    case AckEnds(_) => l.prx.state == PrxSendAck
    case AckTimeout => l.ptx.state == PtxRxAck
  }

  /** The receiver hears a frame only while its radio listens. */
  ghost predicate Reaches(l: Link, r: Reception) {
    l.prx.state == Prx && r != Lost && l.ptx.txAddress < |l.prx.pipes|
  }

  ghost function Heard(l: Link, r: Reception): Radio {
    Radio(true, r == Intact, l.ptx.txAddress, l.ptx.txBuffer)
  }

  const SILENCE := Radio(false, false, 0, Frame(0, []))

  ghost function Take(pc: Config, rc: Config, l: Link, s: Step): Link
    requires Sized(pc, l.ptx) && Sized(rc, l.prx) && Enabled(l, s)
  {
    match s
    case PtxCall(c) =>
      var ptx := Apply(pc, l.ptx, c);
      l.(ptx := ptx,
         accepted := if |ptx.tx| > |l.ptx.tx| then l.accepted + ptx.tx[|l.ptx.tx|..] else l.accepted,
         attempts := if l.ptx.state == Idle then 0 else l.attempts)
    case PrxCall(c) =>
      l.(prx := Apply(rc, l.prx, c),
         read := if c.CallRead? && l.prx.rx != [] then l.read + [l.prx.rx[0]] else l.read)
    case FrameEnds(r, stale) =>
      var l' := l.(ptx := OnTx(l.ptx), attempts := l.attempts + 1);
      if Reaches(l, r) then
        var prx := OnRx(rc, l.prx, Heard(l, r), stale);
        l'.(prx := prx,
            stored := if |prx.rx| > |l.prx.rx| then l.stored + prx.rx[|l.prx.rx|..] else l.stored)
      else l'
    case AckEnds(heard) =>
      var l' := l.(prx := OnRxAck(l.prx));
      if heard && l.ptx.state == PtxRxAck then
        AckReceived(pc, l', Radio(true, true, l.ptx.txAddress, l.prx.txBuffer))
      else l'
    case AckTimeout => l.(ptx := OnTxWaitForAck(pc, l.ptx, SILENCE))
  }

  ghost function AckReceived(pc: Config, l: Link, ack: Radio): Link {
    l.(ptx := OnTxWaitForAck(pc, l.ptx, ack),
       removed := if l.ptx.tx == [] then l.removed else l.removed + [l.ptx.tx[0]],
       attempts := 0)
  }

  // The invariant

  /** How many of the payloads went to a pipe. */
  function CountOn(ps: seq<Payload>, pipe: nat): nat {
    if ps == [] then 0
    else CountOn(ps[..|ps| - 1], pipe) + (if ps[|ps| - 1].pipe == pipe then 1 else 0)
  }

  lemma CountOnSnoc(ps: seq<Payload>, p: Payload, pipe: nat)
    ensures CountOn(ps + [p], pipe) == CountOn(ps, pipe) + (if p.pipe == pipe then 1 else 0)
  {
    assert (ps + [p])[..|ps|] == ps;
  }

  /** The k-th payload of each pipe carries packet ID k mod 4. */
  ghost predicate Chained(pc: Config, ps: seq<Payload>) {
    forall i :: 0 <= i < |ps| ==> Counted(ps[..i], ps[i]) && ps[i].pipe < pc.pipeCount && |ps[i].data| <= pc.maxPayload
  }

  ghost predicate Counted(before: seq<Payload>, p: Payload) {
    p.pid == (CountOn(before, p.pipe) + 1) % (PID_MAX + 1)
  }

  ghost predicate PidsTrack(l: Link) {
    && (forall p :: 0 <= p < |l.ptx.pids| ==> l.ptx.pids[p] == CountOn(l.accepted, p) % (PID_MAX + 1))
    && (forall p :: 0 <= p < |l.prx.pipes| ==> l.prx.pipes[p].pid == CountOn(l.stored, p) % (PID_MAX + 1))
  }

  /** The head of the transmit FIFO is already stored, but the transmitter does not know it yet. */
  ghost predicate HeadStored(rc: Config, l: Link) {
    && l.ptx.tx != []
    && l.stored == l.removed + [l.ptx.tx[0]]
    && l.ptx.tx[0].pipe < |l.prx.pipes|
    && l.prx.pipes[l.ptx.tx[0].pipe].crc == rc.crc(l.ptx.tx[0].pipe, FrameOf(l.ptx.tx[0]))
  }

  ghost predicate OnAir(l: Link) {
    Active(l.ptx) ==>
      && l.ptx.tx != []
      && l.ptx.txBuffer == FrameOf(l.ptx.tx[0])
      && l.ptx.txAddress == l.ptx.tx[0].pipe
  }

  ghost predicate Roles(rc: Config, l: Link) {
    && (l.ptx.state == Idle || Active(l.ptx))
    && l.prx.state in {Idle, Prx, PrxSendAck}
    && (l.prx.state == PrxSendAck ==> HeadStored(rc, l))
  }

  ghost predicate Budgeted(pc: Config, l: Link) {
    && (l.ptx.state == PtxTxAck ==> l.attempts == pc.retransmitCount - l.ptx.remaining)
    && (l.ptx.state == PtxRxAck ==> l.attempts == pc.retransmitCount - l.ptx.remaining + 1)
  }

  ghost predicate LinkInv(pc: Config, rc: Config, l: Link) {
    && DeviceInv(pc, l.ptx) && DeviceInv(rc, l.prx)
    && Ledger(rc, l) && Chained(pc, l.accepted) && PidsTrack(l)
    && OnAir(l) && Roles(rc, l) && Budgeted(pc, l)
  }

  /** The histories add up, and the receiver is at most one payload ahead of the transmitter. */
  ghost predicate Ledger(rc: Config, l: Link) {
    && l.accepted == l.removed + l.ptx.tx
    && l.stored == l.read + l.prx.rx
    && (l.stored == l.removed || HeadStored(rc, l))
  }

  lemma InitialLinkInv(pc: Config, rc: Config)
    requires Paired(pc, rc)
    ensures LinkInv(pc, rc, InitialLink(pc, rc))
  {}

  lemma ChainedSnoc(pc: Config, ps: seq<Payload>, p: Payload)
    requires Chained(pc, ps) && p.pipe < pc.pipeCount && |p.data| <= pc.maxPayload
    requires Counted(ps, p)
    ensures Chained(pc, ps + [p])
  {
    var qs := ps + [p];
    forall i | 0 <= i < |qs| ensures Counted(qs[..i], qs[i]) {
      assert qs[..i] == ps[..i];
    }
    assert ps[..|ps|] == ps;
  }

  lemma AcceptedGrows(pc: Config, l: Link, l': Link, q: Payload)
    requires Chained(pc, l.accepted) && PidsTrack(l)
    requires q.pipe < |l.ptx.pids| == pc.pipeCount && |q.data| <= pc.maxPayload
    requires q.pid == NextPid(l.ptx.pids[q.pipe])
    requires l'.accepted == l.accepted + [q] && l'.ptx.pids == l.ptx.pids[q.pipe := q.pid]
    requires l'.prx == l.prx && l'.stored == l.stored
    ensures Chained(pc, l'.accepted) && PidsTrack(l')
  {
    ChainedSnoc(pc, l.accepted, q);
    forall p | 0 <= p < |l'.ptx.pids|
      ensures l'.ptx.pids[p] == CountOn(l'.accepted, p) % (PID_MAX + 1)
    {
      CountOnSnoc(l.accepted, q, p);
    }
  }

  lemma WriteKeepsLink(pc: Config, rc: Config, l: Link, p: Option<Payload>)
    requires Paired(pc, rc) && LinkInv(pc, rc, l)
    ensures LinkInv(pc, rc, Take(pc, rc, l, PtxCall(CallWrite(p))))
  {
    WriteKeepsInv(pc, l.ptx, p);
    if WriteCode(pc, l.ptx, p) == Ok {
      var l' := Take(pc, rc, l, PtxCall(CallWrite(p)));
      var q := p.value.(pid := NextPid(l.ptx.pids[p.value.pipe]));
      WriteAppends(pc, l.ptx, p, q);
      WrittenKeepsLink(pc, rc, l, l', q);
    }
  }

  lemma WrittenKeepsLink(pc: Config, rc: Config, l: Link, l': Link, q: Payload)
    requires Paired(pc, rc) && LinkInv(pc, rc, l)
    requires q.pipe < |l.ptx.pids| && |q.data| <= pc.maxPayload && q.pid == NextPid(l.ptx.pids[q.pipe])
    requires DeviceInv(pc, l'.ptx)
    requires l' == l.(ptx := l'.ptx, accepted := l.accepted + [q], attempts := if l.ptx.state == Idle then 0 else l.attempts)
    requires l'.ptx.tx == l.ptx.tx + [q] && l'.ptx.pids == l.ptx.pids[q.pipe := q.pid]
    requires var d := l.ptx.(tx := l'.ptx.tx, pids := l'.ptx.pids);
             l'.ptx == d || (d.state == Idle && l'.ptx == StartTransaction(pc, d))
    ensures LinkInv(pc, rc, l')
  {
    AcceptedGrows(pc, l, l', q);
    Associative(l.removed, l.ptx.tx, [q]);
    assert l.ptx.tx != [] ==> l'.ptx.tx[0] == l.ptx.tx[0];
  }

  /** A payload accepted while a transaction is in progress waits; an idle transmitter may start at once. */
  lemma WriteAppends(pc: Config, d: Device, p: Option<Payload>, q: Payload)
    requires Sized(pc, d) && WriteCode(pc, d, p) == Ok
    requires q == p.value.(pid := NextPid(d.pids[p.value.pipe]))
    ensures var d' := WritePayload(pc, d, p);
            && d'.tx == d.tx + [q] && d'.tx[|d.tx|..] == [q] && d'.pids == d.pids[q.pipe := q.pid]
            && var e := d.(tx := d'.tx, pids := d'.pids);
            d' == e || (d.state == Idle && d' == StartTransaction(pc, e))
  {}

  lemma PtxCallKeepsLink(pc: Config, rc: Config, l: Link, c: Call)
    requires Paired(pc, rc) && LinkInv(pc, rc, l) && Enabled(l, PtxCall(c))
    ensures LinkInv(pc, rc, Take(pc, rc, l, PtxCall(c)))
  {
    if c.CallWrite? {
      WriteKeepsLink(pc, rc, l, c.p);
    } else {
      ApplyKeepsInv(pc, l.ptx, c);
      var d := Apply(pc, l.ptx, c);
      assert d.tx == l.ptx.tx && d.pids == l.ptx.pids;
    }
  }

  lemma PrxCallKeepsLink(pc: Config, rc: Config, l: Link, c: Call)
    requires Paired(pc, rc) && LinkInv(pc, rc, l) && Enabled(l, PrxCall(c))
    ensures LinkInv(pc, rc, Take(pc, rc, l, PrxCall(c)))
  {
    ApplyKeepsInv(rc, l.prx, c);
    var l' := Take(pc, rc, l, PrxCall(c));
    assert l'.prx.pipes == l.prx.pipes;
  }

  /** Storing the head moves the receiver's packet ID of that pipe to the head's. */
  lemma StoredGrows(pc: Config, l: Link, l': Link)
    requires Chained(pc, l.accepted) && l.accepted == l.removed + l.ptx.tx && l.ptx.tx != []
    requires PidsTrack(l) && l.stored == l.removed
    requires l'.ptx.pids == l.ptx.pids && l'.accepted == l.accepted
    requires l'.stored == l.stored + [l.ptx.tx[0]]
    requires |l'.prx.pipes| == |l.prx.pipes|
    requires forall p :: 0 <= p < |l.prx.pipes| ==>
               l'.prx.pipes[p].pid == if p == l.ptx.tx[0].pipe then l.ptx.tx[0].pid else l.prx.pipes[p].pid
    ensures PidsTrack(l')
  {
    HeadPid(pc, l);
    forall p | 0 <= p < |l'.prx.pipes|
      ensures l'.prx.pipes[p].pid == CountOn(l'.stored, p) % (PID_MAX + 1)
    {
      CountOnSnoc(l.stored, l.ptx.tx[0], p);
    }
  }

  /** The packet ID of the head counts the payloads removed from its pipe. */
  lemma HeadPid(pc: Config, l: Link)
    requires Chained(pc, l.accepted) && l.accepted == l.removed + l.ptx.tx && l.ptx.tx != []
    ensures var h := l.ptx.tx[0];
            && h.pid == (CountOn(l.removed, h.pipe) + 1) % (PID_MAX + 1)
            && h.pipe < pc.pipeCount && |h.data| <= pc.maxPayload
  {
    var h, n := l.ptx.tx[0], |l.removed|;
    assert l.accepted[n] == h;
    assert l.accepted[..n] == l.removed;
  }

  /** Duplicate suppression is exact: the receiver takes the frame of the head for a retransmission
      exactly when it has stored that payload before. */
  lemma RetransmitIffStored(pc: Config, rc: Config, l: Link)
    requires Paired(pc, rc) && LinkInv(pc, rc, l) && l.ptx.tx != []
    ensures l.ptx.tx[0].pipe < |l.prx.pipes|
    ensures IsRetransmit(rc, l.prx, l.ptx.tx[0].pipe, FrameOf(l.ptx.tx[0])) <==> HeadStored(rc, l)
  {
    HeadPid(pc, l);
    var h := l.ptx.tx[0];
    FrameCarriesPayload(h);
    if HeadStored(rc, l) {
      CountOnSnoc(l.removed, h, h.pipe);
    } else {
      NeighbourPidsDiffer(CountOn(l.removed, h.pipe));
    }
  }

  lemma NeighbourPidsDiffer(n: nat)
    ensures (n + 1) % (PID_MAX + 1) != n % (PID_MAX + 1)
  {}

  lemma FrameCarriesPayload(p: Payload)
    ensures Payload(p.pipe, FrameOf(p).Pid(), FrameOf(p).NoAck(), FrameOf(p).data) == p
  {}

  /** What the receiver makes of an intact frame of the head. */
  ghost predicate TookHead(rc: Config, l: Link, prx: Device) {
    && l.ptx.tx != []
    && var h := l.ptx.tx[0];
    && h.pipe < |l.prx.pipes| == |prx.pipes|
    && prx.rx == (if HeadStored(rc, l) then l.prx.rx else l.prx.rx + [h])
    && prx.pipes[h.pipe].pid == h.pid && prx.pipes[h.pipe].crc == rc.crc(h.pipe, FrameOf(h))
    && (forall p :: 0 <= p < |prx.pipes| && p != h.pipe ==> prx.pipes[p] == l.prx.pipes[p])
    && prx.state == PrxSendAck
  }

  /** Acknowledging touches the receive path only by marking the pipe. */
  lemma AcknowledgeEffect(rc: Config, d: Device, pipe: nat, f: Frame, retransmit: bool, stale: Payload)
    requires pipe < |d.pipes| && !rc.selectiveAutoAck
    ensures var e := Acknowledge(rc, d, pipe, f, retransmit, stale);
            && e.rx == d.rx && e.state == PrxSendAck && |e.pipes| == |d.pipes|
            && e.pipes[pipe].pid == d.pipes[pipe].pid && e.pipes[pipe].crc == d.pipes[pipe].crc
            && (forall p :: 0 <= p < |d.pipes| && p != pipe ==> e.pipes[p] == d.pipes[p])
  {}

  /** What receiving a frame does to the queue, the pipes and the state. */
  lemma ReceiveEffect(rc: Config, d: Device, radio: Radio, stale: Payload)
    requires radio.pipe < |d.pipes| && !rc.selectiveAutoAck && Accepts(rc, d, radio)
    requires |radio.frame.data| <= rc.maxPayload
    ensures var pipe, f, e := radio.pipe, radio.frame, OnRx(rc, d, radio, stale);
            && e.rx == (if IsRetransmit(rc, d, pipe, f) then d.rx
                        else d.rx + [Payload(pipe, f.Pid(), f.NoAck(), f.data)])
            && e.state == PrxSendAck && |e.pipes| == |d.pipes|
            && e.pipes[pipe].pid == f.Pid() && e.pipes[pipe].crc == rc.crc(pipe, f)
            && (forall p :: 0 <= p < |d.pipes| && p != pipe ==> e.pipes[p] == d.pipes[p])
  {
    var pipe, f := radio.pipe, radio.frame;
    AcknowledgeEffect(rc, RememberFrame(rc, d, pipe, f), pipe, f, IsRetransmit(rc, d, pipe, f), stale);
  }

  lemma ReceiverTakesHead(pc: Config, rc: Config, l: Link, stale: Payload)
    requires Paired(pc, rc) && LinkInv(pc, rc, l) && Active(l.ptx)
    requires Reaches(l, Intact) && |l.prx.rx| < rc.rxSize
    ensures TookHead(rc, l, OnRx(rc, l.prx, Heard(l, Intact), stale))
  {
    RetransmitIffStored(pc, rc, l);
    HeadPid(pc, l);
    FrameCarriesPayload(l.ptx.tx[0]);
    ReceiveEffect(rc, l.prx, Heard(l, Intact), stale);
  }

  lemma TookHeadKeepsLink(pc: Config, rc: Config, l: Link, l': Link)
    requires Paired(pc, rc) && LinkInv(pc, rc, l) && l.ptx.state == PtxTxAck
    requires TookHead(rc, l, l'.prx) && DeviceInv(rc, l'.prx)
    requires l' == l.(ptx := OnTx(l.ptx), attempts := l.attempts + 1, prx := l'.prx,
                      stored := if HeadStored(rc, l) then l.stored else l.stored + [l.ptx.tx[0]])
    ensures LinkInv(pc, rc, l')
  {
    TookHeadPids(pc, rc, l, l');
    TookHeadLedger(rc, l, l');
  }

  lemma TookHeadPids(pc: Config, rc: Config, l: Link, l': Link)
    requires Ledger(rc, l) && Chained(pc, l.accepted) && PidsTrack(l) && TookHead(rc, l, l'.prx)
    requires l'.ptx.pids == l.ptx.pids && l'.accepted == l.accepted
    requires l'.stored == if HeadStored(rc, l) then l.stored else l.stored + [l.ptx.tx[0]]
    ensures PidsTrack(l')
  {
    if HeadStored(rc, l) {
      HeadPid(pc, l);
      CountOnSnoc(l.removed, l.ptx.tx[0], l.ptx.tx[0].pipe);
    } else {
      StoredGrows(pc, l, l');
    }
  }

  lemma TookHeadLedger(rc: Config, l: Link, l': Link)
    requires Ledger(rc, l) && TookHead(rc, l, l'.prx)
    requires l'.ptx.tx == l.ptx.tx && l'.accepted == l.accepted && l'.removed == l.removed && l'.read == l.read
    requires l'.stored == if HeadStored(rc, l) then l.stored else l.stored + [l.ptx.tx[0]]
    ensures Ledger(rc, l') && HeadStored(rc, l')
  {
    Associative(l.read, l.prx.rx, [l.ptx.tx[0]]);
  }

  lemma FrameKeepsLink(pc: Config, rc: Config, l: Link, r: Reception, stale: Payload)
    requires Paired(pc, rc) && LinkInv(pc, rc, l) && Enabled(l, FrameEnds(r, stale))
    ensures LinkInv(pc, rc, Take(pc, rc, l, FrameEnds(r, stale)))
  {
    if Reaches(l, r) && r == Intact && |l.prx.rx| < rc.rxSize {
      ReceiverTakesHead(pc, rc, l, stale);
      ReceiveKeepsInv(rc, l.prx, Heard(l, r), stale);
      TookHeadKeepsLink(pc, rc, l, Take(pc, rc, l, FrameEnds(r, stale)));
    }
  }

  lemma AckAdvances(pc: Config, d: Device, ack: Radio)
    requires AckHeard(ack) && !pc.selectiveAutoAck && d.tx != []
    ensures var d' := OnTxWaitForAck(pc, d, ack);
            && d'.tx == d.tx[1..] && d'.pids == d.pids
            && (d'.state == Idle ||
                (d'.state == PtxTxAck && d'.tx != [] && d'.remaining == pc.retransmitCount
                 && d'.txBuffer == FrameOf(d'.tx[0]) && d'.txAddress == d'.tx[0].pipe))
  {}

  lemma AdvancedLink(pc: Config, rc: Config, l: Link, l': Link)
    requires Paired(pc, rc) && LinkInv(pc, rc, l)
    requires l.prx.state == PrxSendAck && l.ptx.state == PtxRxAck
    requires DeviceInv(pc, l'.ptx) && l'.ptx.tx == l.ptx.tx[1..] && l'.ptx.pids == l.ptx.pids
    requires l'.ptx.state == PtxTxAck ==> l'.ptx.remaining == pc.retransmitCount
    requires l'.ptx.state == Idle || (l'.ptx.state == PtxTxAck && OnAir(l'))
    requires l' == l.(ptx := l'.ptx, prx := OnRxAck(l.prx), removed := l.removed + [l.ptx.tx[0]], attempts := 0)
    ensures LinkInv(pc, rc, l')
  {
    LedgerAdvances(rc, l, l');
  }

  /** The head leaves the FIFO after the receiver stored it. */
  lemma LedgerAdvances(rc: Config, l: Link, l': Link)
    requires Ledger(rc, l) && HeadStored(rc, l)
    requires l'.ptx.tx == l.ptx.tx[1..] && l'.prx.rx == l.prx.rx
    requires l'.accepted == l.accepted && l'.removed == l.removed + [l.ptx.tx[0]]
    requires l'.stored == l.stored && l'.read == l.read
    ensures Ledger(rc, l') && l'.stored == l'.removed
  {
    assert l.ptx.tx == [l.ptx.tx[0]] + l'.ptx.tx;
    Associative(l.removed, [l.ptx.tx[0]], l'.ptx.tx);
  }

  lemma AckKeepsLink(pc: Config, rc: Config, l: Link, heard: bool)
    requires Paired(pc, rc) && LinkInv(pc, rc, l) && Enabled(l, AckEnds(heard))
    ensures LinkInv(pc, rc, Take(pc, rc, l, AckEnds(heard)))
  {
    if heard && l.ptx.state == PtxRxAck {
      var ack := Radio(true, true, l.ptx.txAddress, l.prx.txBuffer);
      WaitForAckKeepsInv(pc, l.ptx, ack);
      AckAdvances(pc, l.ptx, ack);
      AdvancedLink(pc, rc, l, Take(pc, rc, l, AckEnds(heard)));
    }
  }

  lemma StepKeepsLink(pc: Config, rc: Config, l: Link, s: Step)
    requires Paired(pc, rc) && LinkInv(pc, rc, l) && Enabled(l, s)
    ensures LinkInv(pc, rc, Take(pc, rc, l, s))
  {
    match s
    case PtxCall(c) => PtxCallKeepsLink(pc, rc, l, c);
    case PrxCall(c) => PrxCallKeepsLink(pc, rc, l, c);
    case FrameEnds(r, stale) => FrameKeepsLink(pc, rc, l, r, stale);
    case AckEnds(heard) => AckKeepsLink(pc, rc, l, heard);
    case AckTimeout => WaitForAckKeepsInv(pc, l.ptx, SILENCE);
  }

  // Whole runs

  ghost predicate Leads(pc: Config, rc: Config, l: Link, s: Step, l': Link) {
    Sized(pc, l.ptx) && Sized(rc, l.prx) && Enabled(l, s) && l' == Take(pc, rc, l, s)
  }

  ghost predicate LinkRun(pc: Config, rc: Config, ls: seq<Link>, ss: seq<Step>) {
    && |ls| == |ss| + 1
    && forall i {:trigger ss[i]} :: 0 <= i < |ss| ==> Leads(pc, rc, ls[i], ss[i], ls[i + 1])
  }

  lemma {:induction false} RunKeepsLink(pc: Config, rc: Config, ls: seq<Link>, ss: seq<Step>, k: nat)
    requires Paired(pc, rc) && LinkRun(pc, rc, ls, ss) && LinkInv(pc, rc, ls[0]) && k <= |ss|
    ensures LinkInv(pc, rc, ls[k])
  {
    if k > 0 {
      RunKeepsLink(pc, rc, ls, ss, k - 1);
      assert Leads(pc, rc, ls[k - 1], ss[k - 1], ls[k]);
      StepKeepsLink(pc, rc, ls[k - 1], ss[k - 1]);
    }
  }

  /** Exactly-once, in-order delivery. Whatever is lost and however often transactions fail, what the
      receiver has stored is what left the transmit FIFO, or that and the payload at its head; the
      receiver's application reads a prefix of it, and nothing the transmitter accepted is missing. */
  lemma ExactlyOnceInOrder(pc: Config, rc: Config, ls: seq<Link>, ss: seq<Step>, k: nat)
    requires Paired(pc, rc) && LinkRun(pc, rc, ls, ss) && ls[0] == InitialLink(pc, rc) && k <= |ss|
    ensures var l := ls[k];
            && l.accepted == l.removed + l.ptx.tx
            && l.stored == l.read + l.prx.rx
            && (l.stored == l.removed || (l.ptx.tx != [] && l.stored == l.removed + [l.ptx.tx[0]]))
            && l.read <= l.stored <= l.accepted
            && (l.ptx.tx == [] ==> l.stored == l.accepted)
  {
    InitialLinkInv(pc, rc);
    RunKeepsLink(pc, rc, ls, ss, k);
  }

  /** In every reachable state the k-th payload ever accepted for a pipe has packet ID k mod 4. */
  lemma PidsCountModFour(pc: Config, rc: Config, ls: seq<Link>, ss: seq<Step>, k: nat)
    requires Paired(pc, rc) && LinkRun(pc, rc, ls, ss) && ls[0] == InitialLink(pc, rc) && k <= |ss|
    ensures Chained(pc, ls[k].accepted)
  {
    InitialLinkInv(pc, rc);
    RunKeepsLink(pc, rc, ls, ss, k);
  }

  /** Why `nrf_esb_flush_rx` is not among the steps: it forgets the last packet IDs and CRCs. The receiver
      then treats the frame of the head as it would have without the flush, storing it if it is new and only
      then, if and only if "stored before" and "packet ID and CRC are both zero" agree. Otherwise a stored
      payload is stored again, or a new one is acknowledged and dropped. */
  lemma FlushHarmlessIff(pc: Config, rc: Config, l: Link, stale: Payload)
    requires Paired(pc, rc) && LinkInv(pc, rc, l) && l.ptx.tx != [] && l.prx.state == Prx
    ensures var h, zero := l.ptx.tx[0], l.ptx.tx[0].pid == 0 && rc.crc(l.ptx.tx[0].pipe, FrameOf(l.ptx.tx[0])) == 0;
            && h.pipe < |l.prx.pipes|
            && var prx := OnRx(rc, FlushRx(l.prx), Radio(true, true, h.pipe, FrameOf(h)), stale);
            && prx.state == PrxSendAck
            && prx.rx == (if zero then [] else [h])
            && (prx.rx == (if HeadStored(rc, l) then [] else [h]) <==> (HeadStored(rc, l) <==> zero))
  {
    HeadPid(pc, l);
    var h := l.ptx.tx[0];
    FrameCarriesPayload(h);
    ReceiveEffect(rc, FlushRx(l.prx), Radio(true, true, h.pipe, FrameOf(h)), stale);
  }

  // Retry budget

  /** An acknowledged transaction was on air once for the first frame and at most once per retransmission,
      and the driver stores that very number; but the value outlives the interrupt only when no further
      transaction starts, or when the number is 1 anyway. */
  lemma AttemptsCounted(pc: Config, rc: Config, ls: seq<Link>, ss: seq<Step>, k: nat, ack: Radio)
    requires Paired(pc, rc) && LinkRun(pc, rc, ls, ss) && ls[0] == InitialLink(pc, rc) && k <= |ss|
    requires ls[k].ptx.state == PtxRxAck && AckHeard(ack)
    ensures var l := ls[k];
            && 1 <= l.attempts <= pc.retransmitCount + 1
            && CompleteTransaction(pc, l.ptx).lastAttempts == l.attempts
            && TxSuccess in OnTxWaitForAck(pc, l.ptx, ack).flags
            && (OnTxWaitForAck(pc, l.ptx, ack).lastAttempts == l.attempts <==>
                |l.ptx.tx| == 1 || pc.txMode == Manual || l.attempts == 1)
  {
    InitialLinkInv(pc, rc);
    RunKeepsLink(pc, rc, ls, ss, k);
  }

  /** A transaction fails exactly after `retransmitCount + 1` frames without acknowledgement. Failure
      leaves the queue and all packet IDs in place. */
  lemma FailureKeepsHead(pc: Config, rc: Config, ls: seq<Link>, ss: seq<Step>, k: nat)
    requires Paired(pc, rc) && LinkRun(pc, rc, ls, ss) && ls[0] == InitialLink(pc, rc) && k <= |ss|
    requires ls[k].ptx.state == PtxRxAck
    ensures var l, d := ls[k], OnTxWaitForAck(pc, ls[k].ptx, SILENCE);
            && (d.state == Idle <==> l.attempts == pc.retransmitCount + 1)
            && d.tx == l.ptx.tx && d.pids == l.ptx.pids
            && (d.state == Idle ==> d.lastAttempts == l.attempts && TxFailed in d.flags)
  {
    InitialLinkInv(pc, rc);
    RunKeepsLink(pc, rc, ls, ss, k);
  }

  /** Frames the transmitter may still send before its FIFO is empty, if no transaction fails. */
  ghost function Potential(pc: Config, d: Device): int {
    if d.tx == [] then 0
    else (|d.tx| - 1) * (pc.retransmitCount + 1) + d.remaining + (if d.state == PtxTxAck then 1 else 0)
  }

  ghost predicate Draining(pc: Config, d: Device) { d.tx == [] || Active(d) }

  /** Steps of a run that only drains: no writes, no transaction gives up. */
  ghost predicate DrainStep(l: Link, s: Step) {
    && !(s.PtxCall? && s.call.CallWrite?)
    && !(s.AckTimeout? && l.ptx.remaining == 0)
  }

  ghost function FramesSent(ss: seq<Step>): nat {
    if ss == [] then 0 else FramesSent(ss[..|ss| - 1]) + (if ss[|ss| - 1].FrameEnds? then 1 else 0)
  }

  lemma DrainStepSpendsPotential(pc: Config, rc: Config, l: Link, s: Step)
    requires Paired(pc, rc) && LinkInv(pc, rc, l) && Enabled(l, s)
    requires pc.txMode != Manual && Draining(pc, l.ptx) && DrainStep(l, s)
    ensures var l' := Take(pc, rc, l, s);
            && Draining(pc, l'.ptx)
            && Potential(pc, l'.ptx) + (if s.FrameEnds? then 1 else 0) <= Potential(pc, l.ptx)
  {
    match s
    case PtxCall(c) => CallKeepsPotential(pc, l.ptx, c);
    case AckEnds(heard) =>
      if heard && l.ptx.state == PtxRxAck {
        AckKeepsPotential(pc, l.ptx, Radio(true, true, l.ptx.txAddress, l.prx.txBuffer));
      }
    case _ =>
  }

  lemma CallKeepsPotential(pc: Config, d: Device, c: Call)
    requires Sized(pc, d) && Draining(pc, d) && (c.CallRead? || c.CallStartTx? || c.CallFlushRx?)
    ensures Draining(pc, Apply(pc, d, c)) && Potential(pc, Apply(pc, d, c)) == Potential(pc, d)
  {}

  lemma AckKeepsPotential(pc: Config, d: Device, ack: Radio)
    requires AckHeard(ack) && !pc.selectiveAutoAck && pc.txMode != Manual && d.tx != [] && d.state == PtxRxAck
    ensures var d' := OnTxWaitForAck(pc, d, ack);
            Draining(pc, d') && Potential(pc, d') <= Potential(pc, d)
  {
    AckAdvances(pc, d, ack);
    var n, r := |d.tx|, pc.retransmitCount + 1;
    assert (n - 1) * r == (n - 2) * r + r;
  }

  lemma {:induction false} DrainSpendsPotential(pc: Config, rc: Config, ls: seq<Link>, ss: seq<Step>, k: nat)
    requires Paired(pc, rc) && LinkRun(pc, rc, ls, ss) && LinkInv(pc, rc, ls[0]) && k <= |ss|
    requires pc.txMode != Manual && Draining(pc, ls[0].ptx)
    requires forall i :: 0 <= i < |ss| ==> DrainStep(ls[i], ss[i])
    ensures Draining(pc, ls[k].ptx)
    ensures FramesSent(ss[..k]) + Potential(pc, ls[k].ptx) <= Potential(pc, ls[0].ptx)
  {
    if k > 0 {
      DrainSpendsPotential(pc, rc, ls, ss, k - 1);
      RunKeepsLink(pc, rc, ls, ss, k - 1);
      LeadSpendsPotential(pc, rc, ls[k - 1], ss[k - 1], ls[k]);
      FramesSentNext(ss, k - 1);
    }
  }

  lemma LeadSpendsPotential(pc: Config, rc: Config, l: Link, s: Step, l': Link)
    requires Paired(pc, rc) && LinkInv(pc, rc, l) && Leads(pc, rc, l, s, l')
    requires pc.txMode != Manual && Draining(pc, l.ptx) && DrainStep(l, s)
    ensures Draining(pc, l'.ptx)
    ensures Potential(pc, l'.ptx) + (if s.FrameEnds? then 1 else 0) <= Potential(pc, l.ptx)
  {
    DrainStepSpendsPotential(pc, rc, l, s);
  }

  lemma FramesSentNext(ss: seq<Step>, k: nat)
    requires k < |ss|
    ensures FramesSent(ss[..k + 1]) == FramesSent(ss[..k]) + (if ss[k].FrameEnds? then 1 else 0)
  {
    assert ss[..k + 1][..k] == ss[..k];
  }

  /** A transmitter with `n` queued payloads and a transaction just started empties its FIFO within
      `n * (retransmitCount + 1)` frames if no transaction gives up and nothing is written: the frames
      never exceed that number, until the FIFO is empty a transaction is always in progress, and once that
      many frames are out it is empty or the last frame awaits its acknowledgement. */
  lemma DrainsWithinBudget(pc: Config, rc: Config, ls: seq<Link>, ss: seq<Step>)
    requires Paired(pc, rc) && LinkRun(pc, rc, ls, ss) && LinkInv(pc, rc, ls[0])
    requires pc.txMode != Manual
    requires ls[0].ptx.state == PtxTxAck && ls[0].attempts == 0
    requires forall i :: 0 <= i < |ss| ==> DrainStep(ls[i], ss[i])
    ensures FramesSent(ss) <= |ls[0].ptx.tx| * (pc.retransmitCount + 1)
    ensures ls[|ss|].ptx.tx != [] ==> Active(ls[|ss|].ptx)
    ensures FramesSent(ss) == |ls[0].ptx.tx| * (pc.retransmitCount + 1) ==>
              ls[|ss|].ptx.tx == [] || (|ls[|ss|].ptx.tx| == 1 && ls[|ss|].ptx.state == PtxRxAck)
  {
    DrainSpendsPotential(pc, rc, ls, ss, |ss|);
    assert ss[..|ss|] == ss;
    FreshPotential(pc, rc, ls[0]);
    RunKeepsLink(pc, rc, ls, ss, |ss|);
    PotentialNonNegative(pc, ls[|ss|].ptx);
  }

  lemma FreshPotential(pc: Config, rc: Config, l: Link)
    requires LinkInv(pc, rc, l) && l.ptx.state == PtxTxAck && l.attempts == 0
    ensures Potential(pc, l.ptx) == |l.ptx.tx| * (pc.retransmitCount + 1)
  {
    var n, r := |l.ptx.tx|, pc.retransmitCount + 1;
    assert (n - 1) * r + r == n * r;
  }

  /** Nothing may be sent any more: the FIFO is empty or its last payload is out. */
  lemma PotentialNonNegative(pc: Config, d: Device)
    ensures Potential(pc, d) >= 0
    ensures Potential(pc, d) == 0 ==> d.tx == [] || (|d.tx| == 1 && d.state != PtxTxAck)
  {
    if d.tx != [] {
      var n, r := |d.tx| - 1, pc.retransmitCount + 1;
      assert n * r >= 0 && (n >= 1 ==> n * r >= r);
    }
  }
}
