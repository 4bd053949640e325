/** One Enhanced ShockBurst device in dynamic-payload-length mode, over queues instead of rings.

    Every function gives the state after one API call or one radio interrupt. The driver of
    `EsbDriver` is proved to compute these functions on its rings; `EsbLink` proves what two such
    devices achieve together. */
module EsbDevice {
  import opened Common

  const PID_MAX: nat := 3
  const U32: nat := 0x1_0000_0000

  datatype Mode = PTX | PRX

  datatype TxMode = Auto | Manual | ManualStart

  datatype Payload = Payload(pipe: nat, pid: nat, noack: bool, data: seq<Byte>)

  /** A radio buffer: byte 0 is the length of `data`, byte 1 is `header`. */
  datatype Frame = Frame(header: nat, data: seq<Byte>) {
    function Pid(): nat { header / 2 }
    predicate NoAck() { header % 2 == 0 }
  }

  /** What the radio reports when it becomes disabled: whether a packet ended, whether its CRC was
      right, the pipe it matched and the contents of the receive buffer. */
  datatype Radio = Radio(end: bool, crcOk: bool, pipe: nat, frame: Frame)

  datatype PipeInfo = PipeInfo(crc: nat, pid: nat, ackPayload: bool)

  datatype State = Idle | PtxTx | PtxTxAck | PtxRxAck | Prx | PrxSendAck

  datatype Handler = NoHandler | TxNoAck | Tx | TxWaitForAck | Rx | RxAck

  datatype Flag = TxSuccess | TxFailed | RxReceived

  datatype Code = Ok | InvalidArgument | MessageSize | NoMemory | NoData | Busy

  /** Build-time and run-time configuration. `crc` is the checksum the radio computes over address
      and frame; nothing is assumed about it. */
  datatype Config = Config(
    mode: Mode, txMode: TxMode, retransmitCount: nat, selectiveAutoAck: bool,
    maxPayload: nat, pipeCount: nat, txSize: nat, rxSize: nat,
    crc: (nat, Frame) -> nat)
  {
    ghost predicate Valid() {
      txSize > 0 && rxSize > 0 && retransmitCount < 0x1_0000
    }
  }

  datatype Device = Device(
    tx: seq<Payload>, rx: seq<Payload>,
    pids: seq<nat>, pipes: seq<PipeInfo>,
    state: State, handler: Handler,
    remaining: nat, lastAttempts: nat,
    txBuffer: Frame, txAddress: nat,
    flags: set<Flag>)

  ghost predicate Sized(cfg: Config, d: Device) {
    && |d.tx| <= cfg.txSize && |d.rx| <= cfg.rxSize
    && |d.pids| == cfg.pipeCount && |d.pipes| == cfg.pipeCount
  }

  function FrameOf(p: Payload): Frame {
    Frame(2 * p.pid + (if p.noack then 0 else 1), p.data)
  }

  function Initial(cfg: Config): Device {
    Device([], [], seq(cfg.pipeCount, _ => 0), seq(cfg.pipeCount, _ => PipeInfo(0, 0, false)),
           Idle, NoHandler, 0, 0, Frame(0, []), 0, {})
  }

  // Transmit path

  function StartTransaction(cfg: Config, d: Device): Device
    requires d.tx != []
  {
    var p := d.tx[0];
    var d := d.(lastAttempts := 1, txBuffer := FrameOf(p), txAddress := p.pipe);
    if !p.noack || !cfg.selectiveAutoAck then
      d.(remaining := cfg.retransmitCount, handler := Tx, state := PtxTxAck)
    else
      d.(handler := TxNoAck, state := PtxTx)
  }

  function RemoveFirst(d: Device): Device {
    if d.tx == [] then d else d.(tx := d.tx[1..])
  }

  function OnTxNoAck(cfg: Config, d: Device): Device {
    var d := RemoveFirst(d.(flags := d.flags + {TxSuccess}));
    if d.tx == [] then d.(state := Idle) else StartTransaction(cfg, d)
  }

  function OnTx(d: Device): Device {
    d.(handler := TxWaitForAck, state := PtxRxAck)
  }

  predicate AckHeard(radio: Radio) { radio.end && radio.crcOk }

  function CompleteTransaction(cfg: Config, d: Device): Device {
    RemoveFirst(d.(flags := d.flags + {TxSuccess},
                   lastAttempts := (cfg.retransmitCount - d.remaining + 1) % U32))
  }

  function OnTxWaitForAck(cfg: Config, d: Device, radio: Radio): Device {
    if AckHeard(radio) then
      var d := CompleteTransaction(cfg, d);
      var d := if |radio.frame.data| > 0 then PushReceived(cfg, d, d.txAddress, radio.frame) else d;
      if d.tx == [] || cfg.txMode == Manual then d.(state := Idle) else StartTransaction(cfg, d)
    else if d.remaining == 0 then
      d.(remaining := U32 - 1, lastAttempts := cfg.retransmitCount + 1,
         flags := d.flags + {TxFailed}, state := Idle)
    else
      d.(remaining := d.remaining - 1, handler := Tx, state := PtxTxAck)
  }

  // Receive path

  predicate CanPush(cfg: Config, d: Device, f: Frame) {
    |d.rx| < cfg.rxSize && |f.data| <= cfg.maxPayload
  }

  /** `rx_fifo_push_rfbuf`, with the event flag its callers raise when it succeeds. */
  function PushReceived(cfg: Config, d: Device, pipe: nat, f: Frame): Device {
    if CanPush(cfg, d, f) then
      d.(rx := d.rx + [Payload(pipe, f.Pid(), f.NoAck(), f.data)], flags := d.flags + {RxReceived})
    else d
  }

  predicate IsRetransmit(cfg: Config, d: Device, pipe: nat, f: Frame)
    requires pipe < |d.pipes|
  {
    cfg.crc(pipe, f) == d.pipes[pipe].crc && f.Pid() == d.pipes[pipe].pid
  }

  function RememberFrame(cfg: Config, d: Device, pipe: nat, f: Frame): Device
    requires pipe < |d.pipes|
  {
    d.(pipes := d.pipes[pipe := d.pipes[pipe].(crc := cfg.crc(pipe, f), pid := f.Pid())])
  }

  /** The receiver drops a packet that is corrupt or for which it has no room; it neither stores nor
      acknowledges it. */
  predicate Accepts(cfg: Config, d: Device, radio: Radio) {
    radio.crcOk && |d.rx| < cfg.rxSize
  }

  /** Choice of the acknowledgement. `stale` is the slot behind the queue, which the driver sends when
      it has just removed the last queued acknowledgement payload. */
  function PrepareAck(cfg: Config, d: Device, pipe: nat, f: Frame, retransmit: bool, stale: Payload): Device
    requires pipe < |d.pipes|
  {
    var info := d.pipes[pipe];
    if d.tx != [] && d.tx[0].pipe == pipe then
      var drop := info.ackPayload && !retransmit;
      var tx := if drop then d.tx[1..] else d.tx;
      var current := if tx == [] then stale else tx[0];
      d.(tx := tx,
         flags := if drop then d.flags + {TxSuccess} else d.flags,
         pipes := d.pipes[pipe := info.(ackPayload := true)],
         txBuffer := Frame(f.header, current.data))
    else
      d.(pipes := d.pipes[pipe := info.(ackPayload := false)], txBuffer := Frame(f.header, []))
  }

  function Acknowledge(cfg: Config, d: Device, pipe: nat, f: Frame, retransmit: bool, stale: Payload): Device
    requires pipe < |d.pipes|
  {
    if !cfg.selectiveAutoAck || !f.NoAck() then
      PrepareAck(cfg, d, pipe, f, retransmit, stale)
      .(state := PrxSendAck, txAddress := pipe, handler := RxAck)
    else d
  }

  function OnRx(cfg: Config, d: Device, radio: Radio, stale: Payload): Device
    requires radio.pipe < |d.pipes|
  {
    if !Accepts(cfg, d, radio) then d
    else
      var f, pipe := radio.frame, radio.pipe;
      var retransmit := IsRetransmit(cfg, d, pipe, f);
      var d := Acknowledge(cfg, RememberFrame(cfg, d, pipe, f), pipe, f, retransmit, stale);
      if retransmit then d else PushReceived(cfg, d, pipe, f)
  }

  function OnRxAck(d: Device): Device {
    d.(handler := Rx, state := Prx)
  }

  /** `RADIO_IRQHandler`: the installed handler runs. */
  function OnRadioDisabled(cfg: Config, d: Device, radio: Radio, stale: Payload): Device
    requires radio.pipe < |d.pipes|
  {
    match d.handler
    case NoHandler => d
    case TxNoAck => OnTxNoAck(cfg, d)
    case Tx => OnTx(d)
    case TxWaitForAck => OnTxWaitForAck(cfg, d, radio)
    case Rx => OnRx(cfg, d, radio, stale)
    case RxAck => OnRxAck(d)
  }

  // Application interface

  function WriteCode(cfg: Config, d: Device, p: Option<Payload>): Code {
    if p == None then InvalidArgument
    else if |p.value.data| == 0 || |p.value.data| > cfg.maxPayload then MessageSize
    else if |d.tx| >= cfg.txSize then NoMemory
    else if p.value.pipe >= cfg.pipeCount then InvalidArgument
    else Ok
  }

  function NextPid(pid: nat): nat { (pid + 1) % (PID_MAX + 1) }

  function WritePayload(cfg: Config, d: Device, p: Option<Payload>): Device
    requires |d.pids| == cfg.pipeCount
  {
    if WriteCode(cfg, d, p) != Ok then d
    else
      var pid := NextPid(d.pids[p.value.pipe]);
      var d := d.(pids := d.pids[p.value.pipe := pid], tx := d.tx + [p.value.(pid := pid)]);
      if cfg.mode == PTX && cfg.txMode == Auto && d.state == Idle then StartTransaction(cfg, d) else d
  }

  function ReadRxPayload(d: Device): Device {
    if d.rx == [] then d else d.(rx := d.rx[1..])
  }

  function StartTxCode(d: Device): Code {
    if d.state != Idle then Busy else if d.tx == [] then NoData else Ok
  }

  function StartTx(cfg: Config, d: Device): Device {
    if StartTxCode(d) == Ok then StartTransaction(cfg, d) else d
  }

  function StartRx(d: Device): Device {
    if d.state != Idle then d else d.(handler := Rx, state := Prx)
  }

  function StopRx(d: Device): Device {
    if d.state != Prx && d.state != PrxSendAck then d else d.(handler := NoHandler, state := Idle)
  }

  function FlushTx(d: Device): Device { d.(tx := []) }

  function FlushRx(d: Device): Device {
    d.(rx := [], pipes := seq(|d.pipes|, _ => PipeInfo(0, 0, false)))
  }

  // Runs of one device

  datatype Call =
    | CallWrite(p: Option<Payload>)
    | CallRead
    | CallStartTx
    | CallStartRx
    | CallStopRx
    | CallFlushTx
    | CallFlushRx
    | CallRadio(radio: Radio, stale: Payload)

  ghost predicate CanCall(d: Device, c: Call) {
    c.CallRadio? ==> d.state != Idle && c.radio.pipe < |d.pipes|
  }

  ghost function Apply(cfg: Config, d: Device, c: Call): Device
    requires Sized(cfg, d) && CanCall(d, c)
  {
    match c
    case CallWrite(p) => WritePayload(cfg, d, p)
    case CallRead => ReadRxPayload(d)
    case CallStartTx => StartTx(cfg, d)
    case CallStartRx => StartRx(d)
    case CallStopRx => StopRx(d)
    case CallFlushTx => FlushTx(d)
    case CallFlushRx => FlushRx(d)
    case CallRadio(radio, stale) => OnRadioDisabled(cfg, d, radio, stale)
  }

  /** The handler the radio interrupt must run in each state; none is needed when idle. */
  ghost predicate HandlerMatches(d: Device) {
    match d.state
    case Idle => true
    case PtxTx => d.handler == TxNoAck
    case PtxTxAck => d.handler == Tx
    case PtxRxAck => d.handler == TxWaitForAck
    case Prx => d.handler == Rx
    case PrxSendAck => d.handler == RxAck
  }

  ghost predicate DeviceInv(cfg: Config, d: Device) {
    && Sized(cfg, d)
    && HandlerMatches(d)
    && (forall p :: 0 <= p < |d.pids| ==> d.pids[p] <= PID_MAX)
    && (d.state in {PtxTxAck, PtxRxAck} ==> d.remaining <= cfg.retransmitCount)
  }

  lemma WaitForAckKeepsInv(cfg: Config, d: Device, radio: Radio)
    requires cfg.Valid() && DeviceInv(cfg, d) && d.state == PtxRxAck
    ensures DeviceInv(cfg, OnTxWaitForAck(cfg, d, radio))
  {}

  lemma ReceiveKeepsInv(cfg: Config, d: Device, radio: Radio, stale: Payload)
    requires cfg.Valid() && DeviceInv(cfg, d) && radio.pipe < |d.pipes| && d.state == Prx
    ensures DeviceInv(cfg, OnRx(cfg, d, radio, stale))
  {}

  lemma WriteKeepsInv(cfg: Config, d: Device, p: Option<Payload>)
    requires cfg.Valid() && DeviceInv(cfg, d)
    ensures DeviceInv(cfg, WritePayload(cfg, d, p))
  {}

  lemma RadioKeepsInv(cfg: Config, d: Device, radio: Radio, stale: Payload)
    requires cfg.Valid() && DeviceInv(cfg, d) && radio.pipe < |d.pipes| && d.state != Idle
    ensures DeviceInv(cfg, OnRadioDisabled(cfg, d, radio, stale))
  {
    match d.handler
    case TxWaitForAck => WaitForAckKeepsInv(cfg, d, radio);
    case Rx => ReceiveKeepsInv(cfg, d, radio, stale);
    case _ =>
  }

  lemma ApplyKeepsInv(cfg: Config, d: Device, c: Call)
    requires cfg.Valid() && DeviceInv(cfg, d) && CanCall(d, c)
    ensures DeviceInv(cfg, Apply(cfg, d, c))
  {
    match c
    case CallWrite(p) => WriteKeepsInv(cfg, d, p);
    case CallRadio(radio, stale) => RadioKeepsInv(cfg, d, radio, stale);
    case _ =>
  }

  /** A run is a sequence of calls and radio interrupts, each possible where it happens. */
  ghost predicate Run(cfg: Config, ds: seq<Device>, cs: seq<Call>) {
    && |ds| == |cs| + 1
    && ds[0] == Initial(cfg)
    && forall i {:trigger cs[i]} :: 0 <= i < |cs| ==>
         Sized(cfg, ds[i]) && CanCall(ds[i], cs[i]) && ds[i + 1] == Apply(cfg, ds[i], cs[i])
  }

  /** In every state of every run the queues respect their capacity and, unless the device is idle, the
      installed radio handler is the one its state calls for. */
  lemma {:induction false} HandlerMatchesThroughout(cfg: Config, ds: seq<Device>, cs: seq<Call>, k: nat)
    requires cfg.Valid() && Run(cfg, ds, cs) && k <= |cs|
    ensures DeviceInv(cfg, ds[k])
  {
    if k > 0 {
      HandlerMatchesThroughout(cfg, ds, cs, k - 1);
      var c := cs[k - 1];
      ApplyKeepsInv(cfg, ds[k - 1], c);
    }
  }

  /** The acknowledgement carries the payload at the head of the queue if and only if the removal in front of
      it leaves one; otherwise it carries whatever the slot behind the queue holds. */
  lemma AckPayloadIsHead(cfg: Config, d: Device, pipe: nat, f: Frame, retransmit: bool, stale: Payload)
    requires pipe < |d.pipes| && d.tx != [] && d.tx[0].pipe == pipe
    ensures var d' := PrepareAck(cfg, d, pipe, f, retransmit, stale);
            var emptied := |d.tx| == 1 && d.pipes[pipe].ackPayload && !retransmit;
            && (d'.tx != [] && d'.txBuffer.data == d'.tx[0].data <==> !emptied)
            && (emptied ==> d'.txBuffer.data == stale.data)
  {}
}
