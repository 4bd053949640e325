/** Streams of whole packets: how far the decoder's unfinished frame can grow, and where a stream may be cut. */
module SlipPackets {
  import opened Common
  import opened Slip

  /** The decoder is inside `data`: it holds a prefix, or a prefix and the first byte of an escape. */
  ghost predicate Inside(r: Rx, base: seq<Byte>, data: seq<Byte>, m: nat) {
    && m <= |data|
    && (|| r.partial == base + data[..m]
        || (m < |data| && r.last == ESC && r.partial == base + data[..m] + [ESC]))
  }

  lemma InsideLonger(r: Rx, base: seq<Byte>, data: seq<Byte>, n: nat, m: nat)
    requires n <= |data| && Inside(r, base, data[..n], m)
    ensures Inside(r, base, data, m)
  {
    assert data[..n][..m] == data[..m];
  }

  /** Some part of an encoded text has been fed. */
  lemma {:induction false} EncodedPrefix(r: Rx, data: seq<Byte>, j: nat) returns (m: nat)
    requires r.last != ESC && j <= |Encode(data)|
    ensures Inside(FeedAll(r, Encode(data)[..j]), r.partial, data, m)
    ensures FeedAll(r, Encode(data)[..j]).frames == r.frames
  {
    if data == [] {
      m := 0;
      assert Encode(data)[..j] == [] && r.partial + data[..0] == r.partial;
    } else {
      var n := |data| - 1;
      var head, tail := Encode(data[..n]), Stuff(data[n]);
      if j <= |head| {
        assert Encode(data)[..j] == head[..j];
        m := EncodedPrefix(r, data[..n], j);
        InsideLonger(FeedAll(r, Encode(data)[..j]), r.partial, data, n, m);
      } else {
        var i := j - |head|;
        assert Encode(data)[..j] == head + tail[..i];
        DecodeEncoded(r, data[..n]);
        FeedAllConcat(r, head, tail[..i]);
        m := StuffedPrefix(FeedAll(r, head), r.partial, data, i);
      }
    }
  }

  lemma StuffedPrefix(r: Rx, base: seq<Byte>, data: seq<Byte>, i: nat) returns (m: nat)
    requires data != [] && r.last != ESC && r.partial == base + data[..|data| - 1]
    requires 0 < i <= |Stuff(data[|data| - 1])|
    ensures Inside(FeedAll(r, Stuff(data[|data| - 1])[..i]), base, data, m)
    ensures FeedAll(r, Stuff(data[|data| - 1])[..i]).frames == r.frames
  {
    var n := |data| - 1;
    var tail := Stuff(data[n]);
    if i == |tail| {
      assert tail[..i] == tail;
      FeedStuffed(r, data[n]);
      PartialGrows(base, data, n);
      assert data[..n + 1] == data;
      m := n + 1;
    } else {
      assert tail[..i] == [ESC];
      FeedOne(r, ESC);
      m := n;
    }
  }

  /** Some part of a packet on the wire has been fed to a decoder with nothing pending. */
  lemma WirePrefix(step: (Word, Byte) -> Word, r: Rx, frame: seq<Byte>, j: nat) returns (m: nat)
    requires r.partial == [] && j <= |Wire(step, frame)|
    ensures Inside(FeedAll(r, Wire(step, frame)[..j]), [], Sealed(step, frame), m)
  {
    var body := Sealed(step, frame);
    var code, wire := Encode(body), Wire(step, frame);
    m := 0;
    if j == 0 {
      assert wire[..0] == [];
    } else if j == |wire| {
      assert wire[..j] == wire;
      DecodeWire(step, r, frame);
    } else {
      var i := j - 1;
      assert wire[..j] == [END] + code[..i];
      FeedAllConcat(r, [END], code[..i]);
      FeedOne(r, END);
      m := EncodedPrefix(Feed(r, END), body, i);
    }
  }

  /** Some part of a stream of packets has been fed: the decoder is inside one of them, or between two. */
  lemma {:induction false} StreamPrefix(step: (Word, Byte) -> Word, frames: seq<seq<Byte>>, j: nat)
    returns (k: nat, m: nat)
    requires j <= |Wires(step, frames)|
    ensures var r := FeedAll(START, Wires(step, frames)[..j]);
            r.partial == [] || (k < |frames| && Inside(r, [], Sealed(step, frames[k]), m))
  {
    if frames == [] {
      k, m := 0, 0;
      assert Wires(step, frames)[..j] == [];
    } else {
      var n := |frames| - 1;
      var before, wire := Wires(step, frames[..n]), Wire(step, frames[n]);
      if j <= |before| {
        assert Wires(step, frames)[..j] == before[..j];
        k, m := StreamPrefix(step, frames[..n], j);
      } else {
        var i := j - |before|;
        assert Wires(step, frames)[..j] == before + wire[..i];
        FeedAllConcat(START, before, wire[..i]);
        StreamRoundTrip(step, frames[..n]);
        k := n;
        m := WirePrefix(step, FeedAll(START, before), frames[n], i);
      }
    }
  }

  // Short packets

  /** Every packet with its trailer is shorter than the receive buffer. */
  ghost predicate Short(frames: seq<seq<Byte>>, size: nat) {
    size > 0 && forall i :: 0 <= i < |frames| ==> |frames[i]| + 2 < size
  }

  lemma ShortPartial(step: (Word, Byte) -> Word, frames: seq<seq<Byte>>, size: nat, j: nat)
    requires Short(frames, size) && j <= |Wires(step, frames)|
    ensures |FeedAll(START, Wires(step, frames)[..j]).partial| < size
  {
    var k, m := StreamPrefix(step, frames, j);
  }

  lemma {:induction false} CleanPrefix(chunks: seq<seq<Byte>>, k: nat)
    requires k <= |chunks| && CleanCuts(chunks) && forall i :: 0 <= i < |chunks| ==> chunks[i] != []
    ensures CleanCuts(chunks[..k])
    decreases |chunks| - k
  {
    if k == |chunks| {
      assert chunks[..k] == chunks;
    } else {
      CleanPrefix(chunks, k + 1);
      assert chunks[..k + 1] == chunks[..k] + [chunks[k]];
      CutsSnoc(chunks[..k], chunks[k]);
    }
  }

  lemma ConcatPrefix(chunks: seq<seq<Byte>>, k: nat)
    requires k <= |chunks|
    ensures |Concat(chunks[..k])| <= |Concat(chunks)| && Concat(chunks)[..|Concat(chunks[..k])|] == Concat(chunks[..k])
  {
    assert chunks == chunks[..k] + chunks[k..];
    ConcatAppend(chunks[..k], chunks[k..]);
  }

  /** Between any two reads the unfinished frame fits the buffer, so the poll handler never discards. */
  lemma {:induction false} NeverDiscards(step: (Word, Byte) -> Word, frames: seq<seq<Byte>>, size: nat,
                                         chunks: seq<seq<Byte>>, k: nat)
    requires Short(frames, size) && CleanCuts(chunks) && Concat(chunks) == Wires(step, frames)
    requires k <= |chunks| && forall i :: 0 <= i < |chunks| ==> chunks[i] != []
    ensures |PollAll(size, START, chunks[..k]).partial| < size
    decreases k
  {
    var before := chunks[..k];
    forall i | 0 <= i < k ensures |PollAll(size, START, before[..i]).partial| < size {
      NeverDiscards(step, frames, size, chunks, i);
      assert before[..i] == chunks[..i];
    }
    PollIsDecode(size, START, before);
    CleanPrefix(chunks, k);
    ChunksTrack(before);
    ConcatPrefix(chunks, k);
    ShortPartial(step, frames, size, |Concat(before)|);
  }

  /** Short packets, read without a misleading cut, are all delivered by the poll handler. */
  lemma PollDelivers(step: (Word, Byte) -> Word, frames: seq<seq<Byte>>, size: nat, chunks: seq<seq<Byte>>)
    requires Short(frames, size) && CleanCuts(chunks) && Concat(chunks) == Wires(step, frames)
    requires forall i :: 0 <= i < |chunks| ==> chunks[i] != []
    ensures var r := PollAll(size, START, chunks);
            Delivered(step, r.frames) == NonEmpty(frames) && r.partial == []
  {
    forall i | 0 <= i < |chunks| ensures |PollAll(size, START, chunks[..i]).partial| < size {
      NeverDiscards(step, frames, size, chunks, i);
    }
    PollIsDecode(size, START, chunks);
    PacketsSurviveChunking(step, frames, chunks);
  }

  // Packets that may be cut anywhere

  /** No byte ESC with a byte behind it that looks like the rest of an escape. */
  ghost predicate Trapless(data: seq<Byte>) {
    forall i :: 0 < i < |data| ==> !(data[i - 1] == ESC && (data[i] == ESC_END || data[i] == ESC_ESC))
  }

  lemma NoMisleadingCut(step: (Word, Byte) -> Word, frames: seq<seq<Byte>>, n: nat)
    requires forall i :: 0 <= i < |frames| ==> Trapless(Sealed(step, frames[i]))
    ensures !MisleadingCut(Wires(step, frames), n)
  {
    if MisleadingCut(Wires(step, frames), n) {
      var k := CutShowsTrap(step, frames, Wires(step, frames), n);
    }
  }

  lemma CutShowsTrap(step: (Word, Byte) -> Word, frames: seq<seq<Byte>>, s: seq<Byte>, n: nat) returns (k: nat)
    requires s == Wires(step, frames) && MisleadingCut(s, n)
    ensures k < |frames| && !Trapless(Sealed(step, frames[k]))
  {
    var r := AtMisleadingCut(s, n);
    var m;
    k, m := StreamPrefix(step, frames, n + 1);
    Trapped(r, s[n], FeedAll(START, s[..n + 1]), Sealed(step, frames[k]), m);
  }

  lemma AtMisleadingCut(s: seq<Byte>, n: nat) returns (r: Rx)
    requires MisleadingCut(s, n)
    ensures r.EndsInEsc() && r.last != ESC && FeedAll(START, s[..n + 1]) == Feed(r, s[n])
    ensures Feed(r, s[n]).partial != []
  {
    r := FeedAll(START, s[..n]);
    AtOnceState(s[..n]);
    assert s[..n + 1][..n] == s[..n];
  }

  /** A decoder that holds ESC as data and is fed such a byte is inside no such packet. */
  lemma Trapped(r: Rx, b: Byte, r': Rx, data: seq<Byte>, m: nat)
    requires r.EndsInEsc() && r.last != ESC && (b == ESC_END || b == ESC_ESC)
    requires r' == Feed(r, b) && Inside(r', [], data, m)
    ensures !Trapless(data)
  {
    var p := r'.partial;
    assert p == r.partial + [b];
    assert p == data[..m] by { assert [] + data[..m] == data[..m]; }
    var i := |p| - 1;
    assert data[i - 1] == p[i - 1] == ESC && data[i] == p[i] == b;
  }

  /** Whatever the reads, the cuts are clean. */
  lemma TraplessCutsClean(step: (Word, Byte) -> Word, frames: seq<seq<Byte>>, chunks: seq<seq<Byte>>)
    requires Concat(chunks) == Wires(step, frames)
    requires forall i :: 0 <= i < |frames| ==> Trapless(Sealed(step, frames[i]))
    ensures CleanCuts(chunks)
  {
    forall k | 0 < k < |chunks| ensures !CutMisleads(chunks, k) {
      NoMisleadingCut(step, frames, |Concat(chunks[..k])|);
    }
  }
}
