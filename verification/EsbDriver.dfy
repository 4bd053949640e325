/** The driver as the source writes it: static variables updated by API calls and interrupt handlers,
    with both FIFOs kept in rings. Each method is proved to act on the queues held by the rings as the
    function of the same name in `EsbDevice`. */
module EsbDriver {
  import opened Common
  import opened EsbDevice
  import opened EsbRing

  class Esb {
    const cfg: Config
    const tx: Ring<Payload>
    const rx: Ring<Payload>
    const pids: array<nat>
    const pipes: array<PipeInfo>
    var state: State
    var handler: Handler
    var remaining: nat
    var lastAttempts: nat
    var txBuffer: Frame
    var txAddress: nat
    var flags: set<Flag>

    ghost function Footprint(): set<object> {
      {this, tx, tx.slots, rx, rx.slots, pids, pipes}
    }

    ghost predicate Valid()
      reads Footprint()
    {
      && cfg.Valid()
      && tx != rx && tx.slots != rx.slots
      && tx.Valid() && tx.slots.Length == cfg.txSize
      && rx.Valid() && rx.slots.Length == cfg.rxSize
      && pids.Length == cfg.pipeCount && pipes.Length == cfg.pipeCount
    }

    /** The abstract device this driver implements. */
    ghost function View(): Device
      requires Valid()
      reads Footprint()
    {
      Device(tx.contents, rx.contents, pids[..], pipes[..], state, handler,
             remaining, lastAttempts, txBuffer, txAddress, flags)
    }

    /** The slot an acknowledgement falls back on when its queue has just become empty. */
    ghost function StaleSlot(): Payload
      requires Valid()
      reads Footprint()
    {
      tx.slots[tx.Wrap(tx.front + 1)]
    }

    /** What that slot holds once as many payloads were written as there are slots: the one written that many
        writes ago. */
    lemma StaleSlotIsOld()
      requires Valid() && tx.count == 1 && |tx.history| >= cfg.txSize
      ensures StaleSlot() == tx.history[|tx.history| - cfg.txSize]
    {
      tx.SlotBehindLast();
    }

    constructor (cfg: Config)
      requires cfg.Valid()
      ensures Valid() && View() == Initial(cfg) && this.cfg == cfg
      ensures fresh(Footprint())
    {
      this.cfg := cfg;
      tx := new Ring<Payload>(cfg.txSize);
      rx := new Ring<Payload>(cfg.rxSize);
      pids := new nat[cfg.pipeCount](_ => 0);
      pipes := new PipeInfo[cfg.pipeCount](_ => PipeInfo(0, 0, false));
      state, handler := Idle, NoHandler;
      remaining, lastAttempts := 0, 0;
      txBuffer, txAddress, flags := Frame(0, []), 0, {};
      new;
      assert pids[..] == Initial(cfg).pids;
      assert pipes[..] == Initial(cfg).pipes;
    }

    method StartTransaction()
      requires Valid() && tx.count > 0
      modifies this
      ensures Valid() && View() == EsbDevice.StartTransaction(cfg, old(View()))
    {
      lastAttempts := 1;
      var p := tx.Front();
      txBuffer := FrameOf(p);
      if !p.noack || !cfg.selectiveAutoAck {
        remaining := cfg.retransmitCount;
        handler := Tx;
        state := PtxTxAck;
      } else {
        handler := TxNoAck;
        state := PtxTx;
      }
      txAddress := p.pipe;
    }

    method OnTxNoAck()
      requires Valid()
      modifies this, tx
      ensures Valid() && View() == EsbDevice.OnTxNoAck(cfg, old(View()))
    {
      flags := flags + {TxSuccess};
      tx.RemoveFront();
      if tx.count == 0 {
        state := Idle;
      } else {
        StartTransaction();
      }
    }

    method OnTx()
      requires Valid()
      modifies this
      ensures Valid() && View() == EsbDevice.OnTx(old(View()))
    {
      handler := TxWaitForAck;
      state := PtxRxAck;
    }

    method PushReceived(pipe: nat, f: Frame)
      requires Valid()
      modifies this, rx, rx.slots
      ensures Valid() && View() == EsbDevice.PushReceived(cfg, old(View()), pipe, f)
      ensures unchanged(tx) && unchanged(tx.slots)
    {
      if rx.count >= cfg.rxSize || |f.data| > cfg.maxPayload {
        return;
      }
      rx.Push(Payload(pipe, f.Pid(), f.NoAck(), f.data));
      flags := flags + {RxReceived};
    }

    method OnTxWaitForAck(radio: Radio)
      requires Valid()
      modifies this, tx, rx, rx.slots
      ensures Valid() && View() == EsbDevice.OnTxWaitForAck(cfg, old(View()), radio)
    {
      if radio.end && radio.crcOk {
        CompleteTransaction();
        if |radio.frame.data| > 0 {
          PushReceived(txAddress, radio.frame);
        }
        if tx.count == 0 || cfg.txMode == Manual {
          state := Idle;
        } else {
          StartTransaction();
        }
      } else if remaining == 0 {
        remaining := U32 - 1;
        lastAttempts := cfg.retransmitCount + 1;
        flags := flags + {TxFailed};
        state := Idle;
      } else {
        remaining := remaining - 1;
        handler := Tx;
        state := PtxTxAck;
      }
    }

    method CompleteTransaction()
      requires Valid()
      modifies this`flags, this`lastAttempts, tx
      ensures Valid() && View() == EsbDevice.CompleteTransaction(cfg, old(View()))
    {
      flags := flags + {TxSuccess};
      lastAttempts := (cfg.retransmitCount - remaining + 1) % U32;
      tx.RemoveFront();
    }

    method PrepareAck(pipe: nat, f: Frame, retransmit: bool)
      requires Valid() && pipe < pipes.Length
      modifies this, tx, pipes
      ensures Valid()
      ensures View() == EsbDevice.PrepareAck(cfg, old(View()), pipe, f, retransmit, old(StaleSlot()))
    {
      var first := tx.Front();
      if tx.count > 0 && first.pipe == pipe {
        RetireAckPayload(pipe, retransmit);
        SetAckPayload(pipe, true);
        var current := tx.Front();
        txBuffer := Frame(f.header, current.data);
      } else {
        SetAckPayload(pipe, false);
        txBuffer := Frame(f.header, []);
      }
    }

    /** A new packet confirms that the last acknowledgement, and the payload it carried, arrived. */
    method RetireAckPayload(pipe: nat, retransmit: bool)
      requires Valid() && pipe < pipes.Length && tx.count > 0
      modifies this`flags, tx
      ensures Valid()
      ensures var old' := old(View());
              View() == if pipes[pipe].ackPayload && !retransmit
                        then old'.(tx := old'.tx[1..], flags := old'.flags + {TxSuccess}) else old'
      ensures tx.slots[tx.front] == if tx.contents != [] then tx.contents[0] else old(StaleSlot())
    {
      if pipes[pipe].ackPayload && !retransmit {
        tx.RemoveFront();
        flags := flags + {TxSuccess};
      }
    }

    method SetAckPayload(pipe: nat, on: bool)
      requires Valid() && pipe < pipes.Length
      modifies pipes
      ensures Valid() && pipes[..] == old(pipes[..])[pipe := old(pipes[pipe]).(ackPayload := on)]
    {
      pipes[pipe] := pipes[pipe].(ackPayload := on);
    }

    method OnRx(radio: Radio)
      requires Valid() && radio.pipe < pipes.Length
      modifies Footprint()
      ensures Valid()
      ensures View() == EsbDevice.OnRx(cfg, old(View()), radio, old(StaleSlot()))
    {
      if !radio.crcOk || rx.count >= cfg.rxSize {
        return;
      }
      var f, pipe := radio.frame, radio.pipe;
      var retransmit := cfg.crc(pipe, f) == pipes[pipe].crc && f.Pid() == pipes[pipe].pid;
      RememberFrame(pipe, f);
      AcknowledgeAndStore(pipe, f, retransmit);
    }

    method AcknowledgeAndStore(pipe: nat, f: Frame, retransmit: bool)
      requires Valid() && pipe < pipes.Length
      modifies this, tx, pipes, rx, rx.slots
      ensures Valid()
      ensures var d := EsbDevice.Acknowledge(cfg, old(View()), pipe, f, retransmit, old(StaleSlot()));
              View() == if retransmit then d else EsbDevice.PushReceived(cfg, d, pipe, f)
    {
      Acknowledge(pipe, f, retransmit);
      if !retransmit {
        PushReceived(pipe, f);
      }
    }

    method Acknowledge(pipe: nat, f: Frame, retransmit: bool)
      requires Valid() && pipe < pipes.Length
      modifies this, tx, pipes
      ensures Valid()
      ensures View() == EsbDevice.Acknowledge(cfg, old(View()), pipe, f, retransmit, old(StaleSlot()))
    {
      if !cfg.selectiveAutoAck || !f.NoAck() {
        PrepareAck(pipe, f, retransmit);
        state := PrxSendAck;
        txAddress := pipe;
        handler := RxAck;
      }
    }

    method RememberFrame(pipe: nat, f: Frame)
      requires Valid() && pipe < pipes.Length
      modifies pipes
      ensures Valid() && View() == EsbDevice.RememberFrame(cfg, old(View()), pipe, f)
    {
      pipes[pipe] := pipes[pipe].(crc := cfg.crc(pipe, f), pid := f.Pid());
    }

    method OnRxAck()
      requires Valid()
      modifies this
      ensures Valid() && View() == EsbDevice.OnRxAck(old(View()))
    {
      handler := Rx;
      state := Prx;
    }

    method OnRadioDisabled(radio: Radio)
      requires Valid() && radio.pipe < pipes.Length
      modifies Footprint()
      ensures Valid()
      ensures View() == EsbDevice.OnRadioDisabled(cfg, old(View()), radio, old(StaleSlot()))
    {
      match handler
      case NoHandler =>
      case TxNoAck => OnTxNoAck();
      case Tx => OnTx();
      case TxWaitForAck => OnTxWaitForAck(radio);
      case Rx => OnRx(radio);
      case RxAck => OnRxAck();
    }

    method WritePayload(p: Option<Payload>) returns (code: Code)
      requires Valid()
      modifies this, tx, tx.slots, pids
      ensures Valid() && View() == EsbDevice.WritePayload(cfg, old(View()), p)
      ensures code == WriteCode(cfg, old(View()), p)
    {
      if p == None {
        return InvalidArgument;
      }
      var p := p.value;
      if |p.data| == 0 || |p.data| > cfg.maxPayload {
        return MessageSize;
      }
      if tx.count >= cfg.txSize {
        return NoMemory;
      }
      if p.pipe >= cfg.pipeCount {
        return InvalidArgument;
      }
      pids[p.pipe] := (pids[p.pipe] + 1) % (PID_MAX + 1);
      tx.Push(p.(pid := pids[p.pipe]));
      if cfg.mode == PTX && cfg.txMode == Auto && state == Idle {
        StartTransaction();
      }
      return Ok;
    }

    method ReadRxPayload(wanted: bool) returns (code: Code, p: Option<Payload>)
      requires Valid()
      modifies rx
      ensures Valid()
      ensures View() == if wanted then EsbDevice.ReadRxPayload(old(View())) else old(View())
      ensures p.Some? <==> code == Ok
      ensures code == if !wanted then InvalidArgument else if old(View()).rx == [] then NoData else Ok
      ensures code == Ok ==> p.value == old(View()).rx[0]
    {
      p := None;
      if !wanted {
        return InvalidArgument, None;
      }
      if rx.count == 0 {
        return NoData, None;
      }
      var first := rx.Front();
      rx.RemoveFront();
      return Ok, Some(first);
    }

    method StartTx() returns (code: Code)
      requires Valid()
      modifies this
      ensures Valid() && View() == EsbDevice.StartTx(cfg, old(View()))
      ensures code == StartTxCode(old(View()))
    {
      if state != Idle {
        return Busy;
      }
      if tx.count == 0 {
        return NoData;
      }
      StartTransaction();
      return Ok;
    }

    method StartRx() returns (code: Code)
      requires Valid()
      modifies this
      ensures Valid() && View() == EsbDevice.StartRx(old(View()))
      ensures code == if old(state) != Idle then Busy else Ok
    {
      if state != Idle {
        return Busy;
      }
      handler := Rx;
      state := Prx;
      return Ok;
    }

    method StopRx() returns (code: Code)
      requires Valid()
      modifies this
      ensures Valid() && View() == EsbDevice.StopRx(old(View()))
      ensures code == if old(state) == Prx || old(state) == PrxSendAck then Ok else InvalidArgument
    {
      if state != Prx && state != PrxSendAck {
        return InvalidArgument;
      }
      handler := NoHandler;
      state := Idle;
      return Ok;
    }

    method FlushTx()
      requires Valid()
      modifies tx
      ensures Valid() && View() == EsbDevice.FlushTx(old(View()))
    {
      tx.Reset();
    }

    method FlushRx()
      requires Valid()
      modifies rx, pipes
      ensures Valid() && View() == EsbDevice.FlushRx(old(View()))
    {
      rx.Reset();
      forall i | 0 <= i < pipes.Length {
        pipes[i] := PipeInfo(0, 0, false);
      }
      assert pipes[..] == EsbDevice.FlushRx(old(View())).pipes;
    }
  }

  /** A listening receiver whose only queued payload `q` has gone out with an acknowledgement on its pipe. */
  ghost predicate SentWithAck(d: Device, q: Payload, info: PipeInfo) {
    && d.tx == [q] && d.rx == [] && d.handler == Rx && d.state == Prx
    && q.pipe < |d.pipes| && d.pipes[q.pipe] == info && info.ackPayload
  }

  /** The same while the acknowledgement is on air. */
  ghost predicate SendingAck(d: Device, q: Payload, info: PipeInfo) {
    && d.tx == [q] && |d.rx| <= 1 && d.handler == RxAck && d.txBuffer.data == q.data
    && q.pipe < |d.pipes| && d.pipes[q.pipe] == info && info.ackPayload
  }

  lemma FirstAck(cfg: Config, d: Device, q: Payload, f: Frame, stale: Payload)
    requires cfg.Valid() && cfg.mode == PRX && !cfg.selectiveAutoAck && q.pipe < |d.pipes|
    requires d.tx == [q] && d.rx == [] && d.handler == Rx && d.state == Prx && !d.pipes[q.pipe].ackPayload
    ensures var d' := EsbDevice.OnRadioDisabled(cfg, d, Radio(true, true, q.pipe, f), stale);
            SendingAck(d', q, PipeInfo(cfg.crc(q.pipe, f), f.Pid(), true))
  {}

  lemma AckOver(cfg: Config, d: Device, q: Payload, info: PipeInfo, radio: Radio, stale: Payload)
    requires SendingAck(d, q, info) && radio.pipe < |d.pipes|
    ensures SentWithAck(EsbDevice.ReadRxPayload(EsbDevice.OnRadioDisabled(cfg, d, radio, stale)), q, info)
  {}

  lemma SecondAck(cfg: Config, d: Device, q: Payload, info: PipeInfo, g: Frame, stale: Payload)
    requires cfg.Valid() && cfg.mode == PRX && !cfg.selectiveAutoAck
    requires SentWithAck(d, q, info) && (cfg.crc(q.pipe, g) != info.crc || g.Pid() != info.pid)
    ensures var d' := EsbDevice.OnRadioDisabled(cfg, d, Radio(true, true, q.pipe, g), stale);
            && d'.tx == [] && TxSuccess in d'.flags && d'.state == PrxSendAck && d'.txBuffer.data == stale.data
  {}

  method ListenWithPayload(cfg: Config, p: Payload) returns (esb: Esb)
    requires cfg.Valid() && cfg.mode == PRX && p.pipe < cfg.pipeCount && 0 < |p.data| <= cfg.maxPayload
    ensures fresh(esb) && fresh(esb.Footprint()) && esb.cfg == cfg && esb.Valid()
    ensures var d := esb.View();
            && d.tx == [p.(pid := 1)] && d.rx == [] && d.handler == Rx && d.state == Prx
            && |d.pipes| == cfg.pipeCount && !d.pipes[p.pipe].ackPayload
  {
    esb := new Esb(cfg);
    var code := esb.WritePayload(Some(p));
    code := esb.StartRx();
    assert esb.View().tx == [p.(pid := 1)];
  }

  /** The acknowledgement ends and the application reads what came with the packet. */
  method FinishAck(esb: Esb, ghost q: Payload, ghost info: PipeInfo)
    requires esb.Valid() && SendingAck(esb.View(), q, info)
    modifies esb.Footprint()
    ensures esb.Valid() && SentWithAck(esb.View(), q, info)
  {
    AckOver(esb.cfg, esb.View(), q, info, Radio(true, true, 0, Frame(0, [])), esb.StaleSlot());
    esb.OnRadioDisabled(Radio(true, true, 0, Frame(0, [])));
    var code, got := esb.ReadRxPayload(true);
  }

  method AcknowledgeWithPayload(cfg: Config, p: Payload, f: Frame) returns (esb: Esb)
    requires cfg.Valid() && cfg.mode == PRX && !cfg.selectiveAutoAck
    requires p.pipe < cfg.pipeCount && 0 < |p.data| <= cfg.maxPayload
    ensures fresh(esb) && fresh(esb.Footprint()) && esb.cfg == cfg && esb.Valid()
    ensures SentWithAck(esb.View(), p.(pid := 1), PipeInfo(cfg.crc(p.pipe, f), f.Pid(), true))
  {
    esb := ListenWithPayload(cfg, p);
    FirstAck(cfg, esb.View(), p.(pid := 1), f, esb.StaleSlot());
    esb.OnRadioDisabled(Radio(true, true, p.pipe, f));
    FinishAck(esb, p.(pid := 1), PipeInfo(cfg.crc(p.pipe, f), f.Pid(), true));
  }

  /** A receiver with one acknowledgement slot confirms its only payload and at once sends it again: the new
      packet `g` tells that the acknowledgement of `f` arrived, the payload is reported as sent and removed, and
      the acknowledgement of `g` carries it a second time. */
  method ConfirmedPayloadGoesOutAgain(cfg: Config, p: Payload, f: Frame, g: Frame) returns (esb: Esb)
    requires cfg.Valid() && cfg.mode == PRX && !cfg.selectiveAutoAck && cfg.txSize == 1
    requires p.pipe < cfg.pipeCount && 0 < |p.data| <= cfg.maxPayload
    requires cfg.crc(p.pipe, g) != cfg.crc(p.pipe, f) || g.Pid() != f.Pid()
    ensures fresh(esb) && esb.Valid()
    ensures var d := esb.View();
            d.tx == [] && TxSuccess in d.flags && d.state == PrxSendAck && d.txBuffer.data == p.data
  {
    esb := AcknowledgeWithPayload(cfg, p, f);
    ghost var d, q, stale := esb.View(), p.(pid := 1), esb.StaleSlot();
    assert stale == esb.tx.contents[0];
    SecondAck(cfg, d, q, PipeInfo(cfg.crc(p.pipe, f), f.Pid(), true), g, stale);
    esb.OnRadioDisabled(Radio(true, true, p.pipe, g));
  }
}
