/** The RTT Ethernet driver: sends frames fragment by fragment, and unescapes received data in the very
    buffer it was read into. */
module EthRtt {
  import opened Common
  import opened Slip
  import opened SlipPackets

  datatype Code = Ok | NoData

  lemma ConcatTake(fragments: seq<seq<Byte>>, i: nat)
    requires i < |fragments|
    ensures Concat(fragments[..i + 1]) == Concat(fragments[..i]) + fragments[i]
  {
    assert fragments[..i + 1] == fragments[..i] + [fragments[i]];
    ConcatSnoc(fragments[..i], fragments[i]);
  }

  lemma WireAssembles(step: (Word, Byte) -> Word, before: seq<Byte>, frame: seq<Byte>)
    ensures before + [END] + Encode(frame) + Encode(Trailer(Crc(step, CRC_SEED, frame))) + [END] ==
            before + Wire(step, frame)
  {
    EncodeConcat(frame, Trailer(Crc(step, CRC_SEED, frame)));
  }

  /** The effect of one byte on the decoded part `buf[start..dst]` of the buffer. */
  lemma FeedInPlace(buf: seq<Byte>, start: nat, dst: nat, last: Byte, b: Byte)
    requires start <= dst < |buf| && (last == ESC ==> start < dst) && b != END
    ensures var p := Feed(Rx([], buf[start..dst], last), b).partial;
            p == if last == ESC && b == ESC_END then buf[dst - 1 := END][start..dst]
                 else if last == ESC && b == ESC_ESC then buf[dst - 1 := ESC][start..dst]
                 else buf[dst := b][start..dst + 1]
  {}

  lemma FeedNext(r: Rx, raw: seq<Byte>, src: nat, end: nat)
    requires src < end <= |raw|
    ensures FeedAll(r, raw[src..end]) == FeedAll(Feed(r, raw[src]), raw[src + 1..end])
  {
    assert raw[src..end] == [raw[src]] + raw[src + 1..end];
    FeedAllConcat(r, [raw[src]], raw[src + 1..end]);
    FeedOne(r, raw[src]);
  }

  /** What the next byte adds to a fragment of which the bytes from `begin` on are still unwritten. */
  lemma EncodeNext(before: seq<Byte>, up: seq<Byte>, data: seq<Byte>, begin: nat, i: nat)
    requires begin <= i < |data| && up + data[begin..i] == before + Encode(data[..i])
    ensures before + Encode(data[..i + 1]) == up + data[begin..i] + Stuff(data[i])
    ensures Stuff(data[i]) == [data[i]] ==> before + Encode(data[..i + 1]) == up + data[begin..i + 1]
  {
    assert data[..i + 1][..i] == data[..i];
    Associative(before, Encode(data[..i]), Stuff(data[i]));
    assert data[begin..i + 1] == data[begin..i] + [data[i]];
    Associative(up, data[begin..i], [data[i]]);
  }

  /** The previous byte does not count between reads. */
  ghost predicate Same(a: Rx, b: Rx) { a.frames == b.frames && a.partial == b.partial }

  lemma PollSame(size: nat, a: Rx, b: Rx, chunk: seq<Byte>)
    requires Same(a, b)
    ensures Poll(size, a, chunk) == Poll(size, b, chunk)
  {}

  lemma PollSnoc(size: nat, r: Rx, chunks: seq<seq<Byte>>, chunk: seq<Byte>, now: Rx)
    requires Same(now, PollAll(size, r, chunks))
    ensures PollAll(size, r, chunks + [chunk]) == Poll(size, now, chunk)
  {
    assert (chunks + [chunk])[..|chunks|] == chunks;
    PollSame(size, now, PollAll(size, r, chunks), chunk);
  }

  class Context {
    const step: (Word, Byte) -> Word
    /** Bytes written to the RTT up channel. */
    var up: seq<Byte>
    var crc: Word
    const rxBuffer: array<Byte>
    var rxLength: nat
    /** Frames passed to the network stack. */
    var delivered: seq<seq<Byte>>
    /** Frames handed to `RecvFrame`, good or bad. */
    ghost var frames: seq<seq<Byte>>

    ghost predicate Valid()
      reads this, rxBuffer
    {
      rxLength <= rxBuffer.Length && delivered == Delivered(step, frames)
    }

    ghost function View(): Rx
      requires rxLength <= rxBuffer.Length
      reads this, rxBuffer
    {
      Rx(frames, rxBuffer[..rxLength], 0)
    }

    constructor (step: (Word, Byte) -> Word, size: nat)
      ensures Valid() && View() == START && rxBuffer.Length == size && fresh(rxBuffer)
      ensures up == [] && this.step == step
    {
      this.step := step;
      up, crc := [], 0;
      rxBuffer, rxLength := new Byte[size], 0;
      delivered, frames := [], [];
    }

    // Sending

    method SendBegin()
      modifies this`up, this`crc
      ensures up == old(up) + [END] && crc == CRC_SEED
    {
      up := up + [END];
      crc := CRC_SEED;
    }

    /** Runs of plain bytes are written as they stand; `plainBegin` is where the current run starts. */
    method SendFragment(data: seq<Byte>)
      modifies this`up, this`crc
      ensures up == old(up) + Encode(data) && crc == Crc(step, old(crc), data)
    {
      var i, plainBegin := 0, 0;
      crc := UpdateCrc(crc, data);
      while i < |data|
        invariant 0 <= plainBegin <= i <= |data|
        invariant up + data[plainBegin..i] == old(up) + Encode(data[..i])
        invariant crc == Crc(step, old(crc), data)
      {
        EncodeNext(old(up), up, data, plainBegin, i);
        if data[i] == END || data[i] == ESC {
          SendPlain(data, plainBegin, i);
          if data[i] == END {
            up := up + [ESC, ESC_END];
          } else {
            up := up + [ESC, ESC_ESC];
          }
          plainBegin := i + 1;
        }
        i := i + 1;
      }
      assert data[..i] == data;
      SendPlain(data, plainBegin, i);
    }

    method SendPlain(data: seq<Byte>, begin: nat, i: nat)
      requires begin <= i <= |data|
      modifies this`up
      ensures up == old(up) + data[begin..i]
    {
      if i > begin {
        up := up + data[begin..i];
      }
    }

    method UpdateCrc(seed: Word, data: seq<Byte>) returns (c: Word)
      ensures c == Crc(step, seed, data)
    {
      c := seed;
      for i := 0 to |data|
        invariant c == Crc(step, seed, data[..i])
      {
        c := step(c, data[i]);
        assert data[..i + 1][..i] == data[..i];
      }
      assert data[..|data|] == data;
    }

    method SendEnd()
      modifies this`up, this`crc
      ensures up == old(up) + Encode(Trailer(old(crc))) + [END]
    {
      SendFragment([crc / 256, crc % 256]);
      up := up + [END];
    }

    /** A packet goes on the wire as one frame, however the network stack fragmented it. */
    method EthSend(fragments: seq<seq<Byte>>) returns (code: Code)
      modifies this`up, this`crc
      ensures code == if fragments == [] then NoData else Ok
      ensures up == if fragments == [] then old(up) else old(up) + Wire(step, Concat(fragments))
    {
      if fragments == [] {
        return NoData;
      }
      SendBegin();
      SendFragments(fragments);
      SendEnd();
      WireAssembles(step, old(up), Concat(fragments));
      return Ok;
    }

    method SendFragments(fragments: seq<seq<Byte>>)
      modifies this`up, this`crc
      ensures up == old(up) + Encode(Concat(fragments)) && crc == Crc(step, old(crc), Concat(fragments))
    {
      ghost var sent: seq<Byte> := [];
      for i := 0 to |fragments|
        invariant sent == Concat(fragments[..i])
        invariant up == old(up) + Encode(sent)
        invariant crc == Crc(step, old(crc), sent)
      {
        var f := fragments[i];
        SendFragment(f);
        Associative(old(up), Encode(sent), Encode(f));
        EncodeConcat(sent, f);
        CrcConcat(step, old(crc), sent, f);
        ConcatTake(fragments, i);
        sent := sent + f;
      }
      assert fragments[..|fragments|] == fragments;
    }

    // Receiving

    method RecvFrame(start: nat, len: nat)
      requires start + len <= rxBuffer.Length && delivered == Delivered(step, frames)
      modifies this`delivered, this`frames
      ensures frames == old(frames) + [rxBuffer[start..start + len]]
      ensures delivered == Delivered(step, frames)
    {
      ghost var was := frames;
      frames := frames + [rxBuffer[start..start + len]];
      DeliveredSnoc(step, was, rxBuffer[start..start + len]);
      if len <= 2 {
        return;
      }
      var data := rxBuffer[start..start + len];
      var crc16 := UpdateCrc(CRC_SEED, data[..len - 2]);
      assert data[len - 2..] == [data[len - 2], data[len - 1]];
      if data[len - 2] != crc16 / 256 || data[len - 1] != crc16 % 256 {
        return;
      }
      delivered := delivered + [data[..len - 2]];
    }

    /** The decoder stands at `src`, has the unfinished frame in `start..dst`, and has not touched what it still
        has to read. */
    ghost predicate Holding(state: Rx, raw: seq<Byte>, src: nat, dst: nat, start: nat, lastByte: Byte)
      reads this, rxBuffer
    {
      && start <= dst <= src <= rxBuffer.Length == |raw|
      && delivered == Delivered(step, frames)
      && rxBuffer[src..] == raw[src..]
      && state == Rx(frames, rxBuffer[start..dst], lastByte)
      && (lastByte == ESC ==> start < dst)
    }

    /** The loop body: reads the byte at `src`, writes behind it. */
    method DecodeByte(src: nat, dst: nat, start: nat, lastByte: Byte, ghost state: Rx, ghost raw: seq<Byte>)
      returns (byte: Byte, dst': nat, start': nat)
      requires Holding(state, raw, src, dst, start, lastByte) && src < rxBuffer.Length
      modifies this`delivered, this`frames, rxBuffer
      ensures byte == raw[src] && Holding(Feed(state, byte), raw, src + 1, dst', start', byte)
    {
      byte := rxBuffer[src];
      assert byte == rxBuffer[src..][0] == raw[src..][0] && raw[src + 1..] == rxBuffer[src..][1..];
      if byte == END {
        rxBuffer[dst] := byte;
        assert rxBuffer[start..dst] == state.partial;
        dst', start' := dst + 1, dst + 1;
        RecvFrame(start, dst - start);
      } else {
        start' := start;
        dst' := Unescape(dst, start, lastByte, byte);
      }
    }

    /** A byte other than END: stored, or merged with the ESC before it. */
    method Unescape(dst: nat, start: nat, lastByte: Byte, byte: Byte) returns (dst': nat)
      requires start <= dst < rxBuffer.Length && (lastByte == ESC ==> start < dst) && byte != END
      modifies rxBuffer
      ensures start <= dst' <= dst + 1 && (byte == ESC ==> start < dst')
      ensures rxBuffer[dst + 1..] == old(rxBuffer[dst + 1..])
      ensures rxBuffer[start..dst'] == Feed(Rx([], old(rxBuffer[start..dst]), lastByte), byte).partial
    {
      FeedInPlace(rxBuffer[..], start, dst, lastByte, byte);
      rxBuffer[dst] := byte;
      dst' := dst + 1;
      if lastByte == ESC {
        if byte == ESC_END {
          dst' := dst' - 1;
          rxBuffer[dst' - 1] := END;
        } else if byte == ESC_ESC {
          dst' := dst' - 1;
          rxBuffer[dst' - 1] := ESC;
        }
      }
    }

    /** In-place decoding of the `size` bytes read behind the unfinished frame. The write index never
        passes the read index, so no undecoded byte is lost. */
    method DecodeNewData(size: nat)
      requires Valid() && rxLength + size <= rxBuffer.Length
      modifies this`delivered, this`frames, this`rxLength, rxBuffer
      ensures Valid()
      ensures var r := FeedAll(Resume(old(View())), old(rxBuffer[rxLength..rxLength + size]));
              frames == r.frames && rxBuffer[..rxLength] == r.partial
    {
      var lastByte: Byte := if rxLength > 0 then rxBuffer[rxLength - 1] else 0;
      var dst, start := DecodeLoop(rxLength, rxLength + size, lastByte, Resume(View()), rxBuffer[..]);
      MoveToFront(start, dst - start);
    }

    method DecodeLoop(from: nat, end: nat, firstLast: Byte, ghost r: Rx, ghost raw: seq<Byte>)
      returns (dst: nat, start: nat)
      requires from <= end <= rxBuffer.Length && raw == rxBuffer[..]
      requires Holding(r, raw, from, from, 0, firstLast)
      modifies this`delivered, this`frames, rxBuffer
      ensures start <= dst <= rxBuffer.Length && delivered == Delivered(step, frames)
      ensures var s := FeedAll(r, raw[from..end]); frames == s.frames && rxBuffer[start..dst] == s.partial
    {
      var src, lastByte := from, firstLast;
      dst, start := from, 0;
      ghost var state, whole := r, FeedAll(r, raw[from..end]);
      while src < end
        invariant from <= src <= end && FeedAll(state, raw[src..end]) == whole
        invariant Holding(state, raw, src, dst, start, lastByte)
      {
        FeedNext(state, raw, src, end);
        lastByte, dst, start := DecodeByte(src, dst, start, lastByte, state, raw);
        state := Feed(state, lastByte);
        src := src + 1;
      }
      assert raw[end..end] == [];
    }

    method MoveToFront(start: nat, len: nat)
      requires start + len <= rxBuffer.Length
      modifies this`rxLength, rxBuffer
      ensures rxLength == len && rxBuffer[..len] == old(rxBuffer[start..start + len])
    {
      rxLength := len;
      if rxLength > 0 && start != 0 {
        forall i | 0 <= i < rxLength {
          rxBuffer[i] := rxBuffer[start + i];
        }
      }
    }

    /** One round of the poll loop, for a read that returned `chunk`. */
    method PollRead(chunk: seq<Byte>)
      requires Valid() && |chunk| <= rxBuffer.Length - (if rxLength >= rxBuffer.Length then 0 else rxLength)
      modifies this`delivered, this`frames, this`rxLength, rxBuffer
      ensures Valid()
      ensures var r := Poll(rxBuffer.Length, old(View()), chunk);
              frames == r.frames && rxBuffer[..rxLength] == r.partial
    {
      if rxLength >= rxBuffer.Length {
        rxLength := 0;
      }
      StoreRead(chunk);
      if |chunk| > 0 {
        DecodeNewData(|chunk|);
      }
    }

    /** The bytes of a read go behind the unfinished frame. */
    method StoreRead(chunk: seq<Byte>)
      requires rxLength + |chunk| <= rxBuffer.Length
      modifies rxBuffer
      ensures View() == old(View()) && rxBuffer[rxLength..rxLength + |chunk|] == chunk
    {
      forall i | 0 <= i < |chunk| {
        rxBuffer[rxLength + i] := chunk[i];
      }
      assert rxBuffer[..rxLength] == old(rxBuffer[..rxLength]);
    }

    /** The poll handler: reads as much as fits until a read finds the down channel empty. `chunks` are the reads
        that found something; the outcome is that of the chunked decoder on them and on the last, empty read,
        before which a full buffer is discarded. */
    method PollWork(down: seq<Byte>) returns (ghost chunks: seq<seq<Byte>>)
      requires Valid() && rxBuffer.Length > 0
      modifies this`delivered, this`frames, this`rxLength, rxBuffer
      ensures Valid() && Concat(chunks) == down && forall i :: 0 <= i < |chunks| ==> chunks[i] != []
      ensures var r := Poll(rxBuffer.Length, PollAll(rxBuffer.Length, old(View()), chunks), []);
              frames == r.frames && rxBuffer[..rxLength] == r.partial
    {
      ghost var size, first := rxBuffer.Length, View();
      var read := 0;
      chunks := [];
      while read < |down|
        invariant 0 <= read <= |down| && Valid()
        invariant Concat(chunks) == down[..read] && forall i :: 0 <= i < |chunks| ==> chunks[i] != []
        invariant Same(View(), PollAll(size, first, chunks))
      {
        var num := Fitting(|down| - read);
        ghost var chunk := down[read..read + num];
        PollSnoc(size, first, chunks, chunk, View());
        PollRead(down[read..read + num]);
        ConcatSnoc(chunks, chunk);
        assert down[..read] + chunk == down[..read + num];
        chunks := chunks + [chunk];
        read := read + num;
      }
      assert down[..read] == down;
      PollSame(size, View(), PollAll(size, first, chunks), []);
      PollRead([]);
    }

    /** How much a read returns: what is there, up to the room left in the buffer. */
    method Fitting(available: nat) returns (num: nat)
      requires rxLength <= rxBuffer.Length
      ensures num <= available && num <= rxBuffer.Length - (if rxLength >= rxBuffer.Length then 0 else rxLength)
      ensures available > 0 && rxBuffer.Length > 0 ==> num > 0
    {
      var space := rxBuffer.Length - (if rxLength >= rxBuffer.Length then 0 else rxLength);
      num := if available < space then available else space;
    }
  }

  // End to end

  function Joined(packets: seq<seq<seq<Byte>>>): seq<seq<Byte>> {
    if packets == [] then [] else Joined(packets[..|packets| - 1]) + [Concat(packets[|packets| - 1])]
  }

  lemma JoinedSnoc(packets: seq<seq<seq<Byte>>>, i: nat)
    requires i < |packets|
    ensures Joined(packets[..i + 1]) == Joined(packets[..i]) + [Concat(packets[i])]
  {
    assert packets[..i + 1][..i] == packets[..i];
  }

  lemma WiresSnoc(step: (Word, Byte) -> Word, frames: seq<seq<Byte>>, f: seq<Byte>)
    ensures Wires(step, frames + [f]) == Wires(step, frames) + Wire(step, f)
  {
    assert (frames + [f])[..|frames|] == frames;
  }

  lemma NonEmptySnoc(frames: seq<seq<Byte>>, f: seq<Byte>)
    ensures NonEmpty(frames + [f]) == NonEmpty(frames) + (if f == [] then [] else [f])
  {
    assert (frames + [f])[..|frames|] == frames;
  }

  /** All packets of a list are sent; one without fragments is refused. `sent` are the frames that went out. */
  method SendAll(sender: Context, packets: seq<seq<seq<Byte>>>) returns (ghost sent: seq<seq<Byte>>)
    modifies sender`up, sender`crc
    ensures sender.up == old(sender.up) + Wires(sender.step, sent)
    ensures NonEmpty(sent) == NonEmpty(Joined(packets))
    ensures forall f :: f in sent ==> f in Joined(packets)
  {
    sent := [];
    assert old(sender.up) + [] == old(sender.up);
    for i := 0 to |packets|
      invariant sender.up == old(sender.up) + Wires(sender.step, sent)
      invariant NonEmpty(sent) == NonEmpty(Joined(packets[..i]))
      invariant forall f :: f in sent ==> f in Joined(packets[..i])
    {
      var code := sender.EthSend(packets[i]);
      ghost var f := Concat(packets[i]);
      JoinedSnoc(packets, i);
      NonEmptySnoc(Joined(packets[..i]), f);
      if code == Ok {
        WiresSnoc(sender.step, sent, f);
        NonEmptySnoc(sent, f);
        Associative(old(sender.up), Wires(sender.step, sent), Wire(sender.step, f));
        sent := sent + [f];
      }
    }
    assert packets[..|packets|] == packets;
  }

  /** What one driver sends the other delivers, if every packet with its trailer is shorter than the receive buffer
      and no read ends at a misleading place; the latter is certain if no packet holds an ESC followed by ESC_END
      or ESC_ESC. */
  method SendAndReceive(sender: Context, receiver: Context, packets: seq<seq<seq<Byte>>>)
    returns (ghost chunks: seq<seq<Byte>>)
    requires sender != receiver && sender.up == [] && sender.step == receiver.step
    requires receiver.Valid() && receiver.View() == START && Short(Joined(packets), receiver.rxBuffer.Length)
    modifies sender`up, sender`crc, receiver, receiver.rxBuffer
    ensures receiver.Valid() && Concat(chunks) == sender.up
    ensures CleanCuts(chunks) ==> receiver.delivered == NonEmpty(Joined(packets))
    ensures (forall f :: f in Joined(packets) ==> Trapless(Sealed(sender.step, f))) ==> CleanCuts(chunks)
  {
    ghost var step, size := sender.step, receiver.rxBuffer.Length;
    ghost var sent := SendAll(sender, packets);
    assert sender.up == Wires(step, sent);
    chunks := receiver.PollWork(sender.up);
    ShortSent(sent, Joined(packets), size);
    if CleanCuts(chunks) {
      PollDelivers(step, sent, size, chunks);
    }
    if forall f :: f in Joined(packets) ==> Trapless(Sealed(step, f)) {
      TraplessCutsClean(step, sent, chunks);
    }
  }

  lemma ShortSent(sent: seq<seq<Byte>>, frames: seq<seq<Byte>>, size: nat)
    requires Short(frames, size) && forall f :: f in sent ==> f in frames
    ensures Short(sent, size)
  {
    forall i | 0 <= i < |sent| ensures |sent[i]| + 2 < size {
      assert sent[i] in frames;
    }
  }
}
