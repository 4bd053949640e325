/** What the calls of one device achieve, told by their consequences. */
module EsbEffects {
  import opened Common
  import opened EsbDevice
  import opened EsbLink

  /** The header of a frame: the packet ID in front of the bit that asks for an acknowledgement. */
  lemma FrameLayout(p: Payload)
    ensures var f := FrameOf(p);
            f.header == 2 * p.pid + (if p.noack then 0 else 1) && f.data == p.data && f.Pid() == p.pid && (f.NoAck() <==> p.noack)
  {}

  /** `nrf_esb_start_tx` on an idle device puts the head on air; it changes nothing on a busy or empty one. */
  lemma StartTxStarts(cfg: Config, d: Device)
    ensures var d' := StartTx(cfg, d);
            if d.state != Idle then StartTxCode(d) == Busy && d' == d
            else if d.tx == [] then StartTxCode(d) == NoData && d' == d
            else
              var h, acked := d.tx[0], !d.tx[0].noack || !cfg.selectiveAutoAck;
              && StartTxCode(d) == Ok
              && d'.txBuffer == FrameOf(h) && d'.txAddress == h.pipe && d'.lastAttempts == 1
              && d'.state == (if acked then PtxTxAck else PtxTx)
              && d'.handler == (if acked then Tx else TxNoAck)
              && d'.remaining == (if acked then cfg.retransmitCount else d.remaining)
              && d'.tx == d.tx && d'.rx == d.rx && d'.pids == d.pids && d'.pipes == d.pipes && d'.flags == d.flags
  {}

  /** A transaction that was given up, or never started, succeeds when it is started and nothing is lost: the
      head is stored and leaves the FIFO. */
  lemma RestartDelivers(pc: Config, rc: Config, l: Link, stale: Payload) returns (l1: Link, l2: Link, l3: Link)
    requires Paired(pc, rc) && LinkInv(pc, rc, l) && l.ptx.state == Idle && l.ptx.tx != []
    requires l.prx.state == Prx && |l.prx.rx| < rc.rxSize
    ensures Leads(pc, rc, l, PtxCall(CallStartTx), l1)
    ensures Leads(pc, rc, l1, FrameEnds(Intact, stale), l2)
    ensures Leads(pc, rc, l2, AckEnds(true), l3)
    ensures var h := l.ptx.tx[0];
            l3.stored == l.removed + [h] && l3.removed == l.removed + [h] && l3.ptx.tx == l.ptx.tx[1..]
  {
    var h := l.ptx.tx[0];
    StartTxStarts(pc, l.ptx);
    l1 := Take(pc, rc, l, PtxCall(CallStartTx));
    StepKeepsLink(pc, rc, l, PtxCall(CallStartTx));
    l2 := HeardIntact(pc, rc, l1, stale);
    l3 := AckHeardBy(pc, rc, l2);
    assert l.stored == l.removed || l.stored == l.removed + [h];
  }

  lemma HeardIntact(pc: Config, rc: Config, l: Link, stale: Payload) returns (l': Link)
    requires Paired(pc, rc) && LinkInv(pc, rc, l) && l.ptx.state == PtxTxAck
    requires l.prx.state == Prx && |l.prx.rx| < rc.rxSize
    ensures Leads(pc, rc, l, FrameEnds(Intact, stale), l') && LinkInv(pc, rc, l')
    ensures l'.ptx == OnTx(l.ptx) && l'.prx.state == PrxSendAck && l'.removed == l.removed
  {
    HeadPid(pc, l);
    ReceiverTakesHead(pc, rc, l, stale);
    l' := Take(pc, rc, l, FrameEnds(Intact, stale));
    StepKeepsLink(pc, rc, l, FrameEnds(Intact, stale));
  }

  lemma AckHeardBy(pc: Config, rc: Config, l: Link) returns (l': Link)
    requires Paired(pc, rc) && LinkInv(pc, rc, l) && l.ptx.state == PtxRxAck && l.prx.state == PrxSendAck
    ensures Leads(pc, rc, l, AckEnds(true), l') && l.ptx.tx != []
    ensures l'.removed == l.removed + [l.ptx.tx[0]] && l'.stored == l'.removed && l'.ptx.tx == l.ptx.tx[1..]
  {
    l' := Take(pc, rc, l, AckEnds(true));
    AckAdvances(pc, l.ptx, Radio(true, true, l.ptx.txAddress, l.prx.txBuffer));
  }

  /** A write starts a transaction by itself if and only if the device is an idle transmitter in automatic mode. */
  lemma WriteStartsIff(cfg: Config, d: Device, p: Payload)
    requires |d.pids| == cfg.pipeCount && WriteCode(cfg, d, Some(p)) == Ok
    ensures var d' := WritePayload(cfg, d, Some(p));
            if cfg.mode == PTX && cfg.txMode == Auto && d.state == Idle
            then d'.state in {PtxTx, PtxTxAck} && d'.txBuffer == FrameOf(d'.tx[0])
            else d'.state == d.state && d'.handler == d.handler && d'.txBuffer == d.txBuffer && d'.remaining == d.remaining
  {}

  /** In manual mode the transmitter stops behind every payload; otherwise it goes on with the next. */
  lemma ManualStops(cfg: Config, d: Device, ack: Radio)
    requires AckHeard(ack) && |d.tx| >= 2
    ensures OnTxWaitForAck(cfg, d, ack).state == Idle <==> cfg.txMode == Manual
  {}

  /** An acknowledgement that arrives damaged counts for as much as none. */
  lemma DamagedAckIsNone(cfg: Config, d: Device, pipe: nat, f: Frame)
    ensures OnTxWaitForAck(cfg, d, Radio(true, false, pipe, f)) == OnTxWaitForAck(cfg, d, SILENCE)
  {}

  /** With selective acknowledgement a payload marked so goes out once and is forgotten. */
  lemma NoAckSentOnce(cfg: Config, d: Device)
    requires cfg.selectiveAutoAck && d.state == Idle && d.tx != [] && d.tx[0].noack
    ensures var d1 := StartTx(cfg, d);
            var d2 := OnTxNoAck(cfg, d1);
            && d1.txBuffer == FrameOf(d.tx[0]) && d1.handler == TxNoAck
            && d2.tx == d.tx[1..] && TxSuccess in d2.flags
            && (if |d.tx| == 1 then d2.state == Idle
                else d2.state != Idle && d2.txBuffer == FrameOf(d.tx[1]) && d2.txAddress == d.tx[1].pipe)
  {}

  /** The receiver stores such a payload and stays silent. */
  lemma NoAckStoredSilently(cfg: Config, d: Device, p: Payload, stale: Payload)
    requires cfg.selectiveAutoAck && p.noack && p.pipe < |d.pipes| && |d.rx| < cfg.rxSize && |p.data| <= cfg.maxPayload
    requires !IsRetransmit(cfg, d, p.pipe, FrameOf(p))
    ensures var d' := OnRx(cfg, d, Radio(true, true, p.pipe, FrameOf(p)), stale);
            && d'.rx == d.rx + [p] && RxReceived in d'.flags
            && d'.state == d.state && d'.handler == d.handler && d'.tx == d.tx && d'.txBuffer == d.txBuffer
  {
    FrameLayout(p);
  }

  /** A payload that comes with an acknowledgement is received on the pipe of the acknowledged one. */
  lemma AckPayloadReceived(cfg: Config, d: Device, ack: Radio)
    requires AckHeard(ack) && d.tx != [] && 0 < |ack.frame.data| <= cfg.maxPayload && |d.rx| < cfg.rxSize
    ensures var d' := OnTxWaitForAck(cfg, d, ack);
            && d'.rx == d.rx + [Payload(d.txAddress, ack.frame.Pid(), ack.frame.NoAck(), ack.frame.data)]
            && d'.tx == d.tx[1..] && {TxSuccess, RxReceived} <= d'.flags
  {}

  /** A listening receiver with room answers a packet. */
  ghost function Answer(cfg: Config, d: Device, pipe: nat, f: Frame, stale: Payload): Device
    requires pipe < |d.pipes|
  {
    OnRx(cfg, d, Radio(true, true, pipe, f), stale)
  }

  /** The life of an acknowledgement payload: the first packet is answered with it, its repetition is answered the
      same way, and a new packet confirms it, so that the answer to that one carries the next payload in the queue,
      whatever pipe it was written for. */
  lemma AckPayloadLifecycle(cfg: Config, d: Device, f: Frame, g: Frame, stale: Payload)
    requires cfg.Valid() && !cfg.selectiveAutoAck && |d.tx| >= 2 && |d.rx| + 2 <= cfg.rxSize
    requires d.tx[0].pipe < |d.pipes| && !d.pipes[d.tx[0].pipe].ackPayload
    requires !IsRetransmit(cfg, d, d.tx[0].pipe, f)
    requires cfg.crc(d.tx[0].pipe, g) != cfg.crc(d.tx[0].pipe, f) || g.Pid() != f.Pid()
    ensures var pipe := d.tx[0].pipe;
            var first := Answer(cfg, d, pipe, f, stale);
            && first.tx == d.tx && first.txBuffer.data == d.tx[0].data && |first.pipes| == |d.pipes|
            && var again := Answer(cfg, OnRxAck(first), pipe, f, stale);
            && again.tx == d.tx && again.txBuffer.data == d.tx[0].data && again.rx == first.rx && |again.pipes| == |d.pipes|
            && var next := Answer(cfg, OnRxAck(again), pipe, g, stale);
            && next.tx == d.tx[1..] && next.txBuffer.data == d.tx[1].data && TxSuccess in next.flags
  {
    var pipe := d.tx[0].pipe;
    FirstAnswer(cfg, d, f, stale);
    var first := Answer(cfg, d, pipe, f, stale);
    LaterAnswer(cfg, OnRxAck(first), f, stale);
    var again := Answer(cfg, OnRxAck(first), pipe, f, stale);
    LaterAnswer(cfg, OnRxAck(again), g, stale);
  }

  /** Without a payload for its pipe a packet is answered empty. */
  lemma EmptyAnswer(cfg: Config, d: Device, pipe: nat, f: Frame, stale: Payload)
    requires !cfg.selectiveAutoAck && pipe < |d.pipes| && |d.rx| < cfg.rxSize && (d.tx == [] || d.tx[0].pipe != pipe)
    ensures var e := Answer(cfg, d, pipe, f, stale);
            e.tx == d.tx && e.txBuffer == Frame(f.header, []) && e.txAddress == pipe && e.state == PrxSendAck && !e.pipes[pipe].ackPayload
  {}

  lemma FirstAnswer(cfg: Config, d: Device, f: Frame, stale: Payload)
    requires !cfg.selectiveAutoAck && d.tx != [] && |d.rx| < cfg.rxSize
    requires d.tx[0].pipe < |d.pipes| && !d.pipes[d.tx[0].pipe].ackPayload && !IsRetransmit(cfg, d, d.tx[0].pipe, f)
    ensures var pipe := d.tx[0].pipe;
            var e := Answer(cfg, d, pipe, f, stale);
            && e.tx == d.tx && e.txBuffer.data == d.tx[0].data && |e.pipes| == |d.pipes| && |e.rx| <= |d.rx| + 1
            && e.pipes[pipe] == PipeInfo(cfg.crc(pipe, f), f.Pid(), true)
  {}

  lemma LaterAnswer(cfg: Config, d: Device, f: Frame, stale: Payload)
    requires !cfg.selectiveAutoAck && |d.tx| >= 2 && |d.rx| < cfg.rxSize
    requires d.tx[0].pipe < |d.pipes| && d.pipes[d.tx[0].pipe].ackPayload
    ensures var pipe := d.tx[0].pipe;
            var e := Answer(cfg, d, pipe, f, stale);
            && |e.pipes| == |d.pipes| && e.pipes[pipe] == PipeInfo(cfg.crc(pipe, f), f.Pid(), true)
            && (if IsRetransmit(cfg, d, pipe, f) then e.tx == d.tx && e.rx == d.rx && e.txBuffer.data == d.tx[0].data
                else e.tx == d.tx[1..] && e.txBuffer.data == d.tx[1].data && TxSuccess in e.flags)
  {}

  /** A stopped receiver hears nothing, and a started one listens again. */
  lemma StoppedIsDeaf(pc: Config, rc: Config, l: Link, r: Reception, stale: Payload)
    requires Paired(pc, rc) && LinkInv(pc, rc, l) && l.ptx.state == PtxTxAck && l.prx.state in {Prx, PrxSendAck}
    ensures var stopped := l.(prx := StopRx(l.prx));
            && Take(pc, rc, l, PrxCall(CallStopRx)) == stopped && stopped.prx.state == Idle
            && Take(pc, rc, stopped, FrameEnds(r, stale)).prx == stopped.prx
            && StartRx(stopped.prx).state == Prx && StartRx(stopped.prx).handler == Rx
            && StartRx(stopped.prx).rx == l.prx.rx && StartRx(stopped.prx).pipes == l.prx.pipes
  {}

  /** Writes of a device that does not start by itself. */
  ghost function WriteMany(cfg: Config, d: Device, p: Payload, n: nat): Device
    requires Sized(cfg, d)
    ensures Sized(cfg, WriteMany(cfg, d, p, n))
  {
    if n == 0 then d else WritePayload(cfg, WriteMany(cfg, d, p, n - 1), Some(p))
  }

  /** A flushed transmitter takes exactly as many payloads as it has slots, of every length from one byte to the
      largest; the next is refused. */
  lemma {:induction false} FlushedTakesCapacity(cfg: Config, d: Device, p: Payload, n: nat)
    requires cfg.Valid() && Sized(cfg, d) && cfg.mode == PRX && n <= cfg.txSize
    requires 1 <= |p.data| <= cfg.maxPayload && p.pipe < cfg.pipeCount
    ensures var w := WriteMany(cfg, FlushTx(d), p, n);
            && |w.tx| == n && (forall i :: 0 <= i < n ==> w.tx[i].data == p.data && w.tx[i].pipe == p.pipe)
            && WriteCode(cfg, w, Some(p)) == (if n < cfg.txSize then Ok else NoMemory)
            && w.rx == d.rx && w.pipes == d.pipes && w.state == d.state
  {
    if n > 0 {
      FlushedTakesCapacity(cfg, d, p, n - 1);
    }
  }

  /** Everything else is refused, and changes nothing. */
  lemma Refused(cfg: Config, d: Device, p: Option<Payload>)
    requires |d.pids| == cfg.pipeCount
    requires p == None || p.value.data == [] || |p.value.data| > cfg.maxPayload || p.value.pipe >= cfg.pipeCount
             || |d.tx| >= cfg.txSize
    ensures WriteCode(cfg, d, p) != Ok && WritePayload(cfg, d, p) == d
    ensures p == None ==> WriteCode(cfg, d, p) == InvalidArgument
    ensures p.Some? && 1 <= |p.value.data| <= cfg.maxPayload && |d.tx| >= cfg.txSize ==> WriteCode(cfg, d, p) == NoMemory
  {}
}
