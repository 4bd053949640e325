/** SLIP framing of Ethernet frames over an RTT channel (the PROTOCOL section of RFC 1055), with a
    two-byte CRC trailer: what the wire format means, independently of buffers. */
module Slip {

  import opened Common

  type Word = w: int | 0 <= w < 0x10000

  const END: Byte := 192
  const ESC: Byte := 219
  const ESC_END: Byte := 220
  const ESC_ESC: Byte := 221

  // Sender

  function Stuff(b: Byte): seq<Byte> {
    if b == END then [ESC, ESC_END] else if b == ESC then [ESC, ESC_ESC] else [b]
  }

  /** The byte values of RFC 1055. */
  lemma StuffedBytes(b: Byte)
    ensures Stuff(b) == if b == 0xC0 then [0xDB, 0xDC] else if b == 0xDB then [0xDB, 0xDD] else [b]
  {}

  function Encode(data: seq<Byte>): seq<Byte> {
    if data == [] then [] else Encode(data[..|data| - 1]) + Stuff(data[|data| - 1])
  }

  /** The checksum of the transport library, run byte by byte; its step function is arbitrary. */
  function Crc(step: (Word, Byte) -> Word, seed: Word, data: seq<Byte>): Word {
    if data == [] then seed else step(Crc(step, seed, data[..|data| - 1]), data[|data| - 1])
  }

  const CRC_SEED: Word := 0xFFFF

  /** The checksum behind the data, its byte of greater weight first. */
  function Trailer(crc: Word): (t: seq<Byte>)
    ensures |t| == 2 && 256 * (t[0] as int) + t[1] as int == crc
  {
    [crc / 256, crc % 256]
  }

  function Sealed(step: (Word, Byte) -> Word, frame: seq<Byte>): seq<Byte> {
    frame + Trailer(Crc(step, CRC_SEED, frame))
  }

  function Wire(step: (Word, Byte) -> Word, frame: seq<Byte>): seq<Byte> {
    [END] + Encode(Sealed(step, frame)) + [END]
  }

  lemma {:induction false} EncodeConcat(a: seq<Byte>, b: seq<Byte>)
    ensures Encode(a + b) == Encode(a) + Encode(b)
  {
    if b == [] {
      assert a + b == a;
    } else {
      var n := |b| - 1;
      EncodeConcat(a, b[..n]);
      assert (a + b)[..|a + b| - 1] == a + b[..n];
      Associative(Encode(a), Encode(b[..n]), Stuff(b[n]));
    }
  }

  lemma {:induction false} CrcConcat(step: (Word, Byte) -> Word, seed: Word, a: seq<Byte>, b: seq<Byte>)
    ensures Crc(step, seed, a + b) == Crc(step, Crc(step, seed, a), b)
  {
    if b == [] {
      assert a + b == a;
    } else {
      var n := |b| - 1;
      CrcConcat(step, seed, a, b[..n]);
      assert (a + b)[..|a + b| - 1] == a + b[..n];
    }
  }

  // Receiver

  /** `frames` were handed over, `partial` is the unfinished frame, `last` the byte the decoder holds
      for the previous one. */
  datatype Rx = Rx(frames: seq<seq<Byte>>, partial: seq<Byte>, last: Byte) {
    predicate EndsInEsc() { partial != [] && partial[|partial| - 1] == ESC }
  }

  const START := Rx([], [], 0)

  function Feed(r: Rx, b: Byte): Rx {
    if b == END then Rx(r.frames + [r.partial], [], b)
    else if r.last == ESC && r.partial != [] && b == ESC_END then
      Rx(r.frames, r.partial[..|r.partial| - 1] + [END], b)
    else if r.last == ESC && r.partial != [] && b == ESC_ESC then
      Rx(r.frames, r.partial[..|r.partial| - 1] + [ESC], b)
    else Rx(r.frames, r.partial + [b], b)
  }

  function FeedAll(r: Rx, s: seq<Byte>): Rx {
    if s == [] then r else Feed(FeedAll(r, s[..|s| - 1]), s[|s| - 1])
  }

  lemma {:induction false} FeedAllConcat(r: Rx, a: seq<Byte>, b: seq<Byte>)
    ensures FeedAll(r, a + b) == FeedAll(FeedAll(r, a), b)
  {
    if b == [] {
      assert a + b == a;
    } else {
      var n := |b| - 1;
      FeedAllConcat(r, a, b[..n]);
      assert (a + b)[..|a + b| - 1] == a + b[..n];
    }
  }

  /** Acceptance of a handed-over frame: long enough, and its trailer is the checksum of the rest. */
  predicate Accepted(step: (Word, Byte) -> Word, data: seq<Byte>) {
    |data| > 2 && data[|data| - 2..] == Trailer(Crc(step, CRC_SEED, data[..|data| - 2]))
  }

  function Delivered(step: (Word, Byte) -> Word, frames: seq<seq<Byte>>): seq<seq<Byte>> {
    if frames == [] then []
    else
      var n := |frames| - 1;
      Delivered(step, frames[..n]) + (if Accepted(step, frames[n]) then [frames[n][..|frames[n]| - 2]] else [])
  }

  // Round trip

  lemma {:induction false} DecodeEncoded(r: Rx, data: seq<Byte>)
    requires r.last != ESC
    ensures var r' := FeedAll(r, Encode(data));
            r'.frames == r.frames && r'.partial == r.partial + data && r'.last != ESC
  {
    if data != [] {
      var n := |data| - 1;
      DecodeEncoded(r, data[..n]);
      var r1 := FeedAll(r, Encode(data[..n]));
      FeedAllConcat(r, Encode(data[..n]), Stuff(data[n]));
      FeedStuffed(r1, data[n]);
      PartialGrows(r.partial, data, n);
    }
  }

  lemma PartialGrows(p: seq<Byte>, data: seq<Byte>, n: nat)
    requires |data| == n + 1
    ensures p + data[..n] + [data[n]] == p + data
  {
    assert data == data[..n] + [data[n]];
    Associative(p, data[..n], [data[n]]);
  }

  lemma FeedStuffed(r: Rx, b: Byte)
    requires r.last != ESC
    ensures var r' := FeedAll(r, Stuff(b));
            r'.frames == r.frames && r'.partial == r.partial + [b] && r'.last != ESC
  {
    if b == END || b == ESC {
      var c := Stuff(b)[1];
      assert Stuff(b) == [ESC] + [c];
      FeedAllConcat(r, [ESC], [c]);
      FeedOne(r, ESC);
      FeedOne(Feed(r, ESC), c);
    } else {
      FeedOne(r, b);
    }
  }

  lemma FeedOne(r: Rx, b: Byte)
    ensures FeedAll(r, [b]) == Feed(r, b)
  {
    var s := [b];
    assert s[..|s| - 1] == [];
    assert FeedAll(r, s[..|s| - 1]) == r;
  }

  /** One packet on the wire closes whatever was pending, then hands over the sealed frame. */
  lemma DecodeWire(step: (Word, Byte) -> Word, r: Rx, frame: seq<Byte>)
    ensures FeedAll(r, Wire(step, frame)) == Rx(r.frames + [r.partial, Sealed(step, frame)], [], END)
  {
    var body := Sealed(step, frame);
    var r1 := FeedAll(r, [END]);
    FeedOne(r, END);
    FeedAllConcat(r, [END] + Encode(body), [END]);
    FeedAllConcat(r, [END], Encode(body));
    DecodeEncoded(r1, body);
    var r2 := FeedAll(r1, Encode(body));
    assert r2.partial == body;
    FeedOne(r2, END);
    assert r.frames + [r.partial] + [body] == r.frames + [r.partial, body];
  }

  lemma SealedAccepted(step: (Word, Byte) -> Word, frame: seq<Byte>)
    ensures Accepted(step, Sealed(step, frame)) <==> frame != []
    ensures Sealed(step, frame)[..|frame|] == frame
  {
    var s := Sealed(step, frame);
    assert s[..|s| - 2] == frame;
    assert s[|s| - 2..] == Trailer(Crc(step, CRC_SEED, frame));
  }

  /** A frame whose last two bytes are not its checksum is handed over but not delivered. */
  lemma WrongTrailerRefused(step: (Word, Byte) -> Word, frames: seq<seq<Byte>>, data: seq<Byte>, a: Byte, b: Byte)
    requires 256 * (a as int) + b as int != Crc(step, CRC_SEED, data)
    ensures Delivered(step, frames + [data + [a, b]]) == Delivered(step, frames)
  {
    var f := data + [a, b];
    assert f[..|f| - 2] == data && f[|f| - 2..] == [a, b];
    DeliveredSnoc(step, frames, f);
  }

  function Wires(step: (Word, Byte) -> Word, frames: seq<seq<Byte>>): seq<Byte> {
    if frames == [] then []
    else Wires(step, frames[..|frames| - 1]) + Wire(step, frames[|frames| - 1])
  }

  function NonEmpty(frames: seq<seq<Byte>>): seq<seq<Byte>> {
    if frames == [] then []
    else
      var n := |frames| - 1;
      NonEmpty(frames[..n]) + (if frames[n] == [] then [] else [frames[n]])
  }

  lemma DeliveredSnoc(step: (Word, Byte) -> Word, frames: seq<seq<Byte>>, f: seq<Byte>)
    ensures Delivered(step, frames + [f]) ==
            Delivered(step, frames) + (if Accepted(step, f) then [f[..|f| - 2]] else [])
  {
    assert (frames + [f])[..|frames|] == frames;
  }

  lemma DeliveredPacket(step: (Word, Byte) -> Word, frames: seq<seq<Byte>>, f: seq<Byte>)
    ensures Delivered(step, frames + [[], Sealed(step, f)]) ==
            Delivered(step, frames) + (if f == [] then [] else [f])
  {
    SealedAccepted(step, f);
    assert frames + [[], Sealed(step, f)] == (frames + [[]]) + [Sealed(step, f)];
    DeliveredSnoc(step, frames + [[]], Sealed(step, f));
    DeliveredSnoc(step, frames, []);
  }

  /** Every packet stream decodes to exactly the non-empty packets, in order, whatever the checksum. */
  lemma {:induction false} StreamRoundTrip(step: (Word, Byte) -> Word, frames: seq<seq<Byte>>)
    ensures var r := FeedAll(START, Wires(step, frames));
            r.partial == [] && Delivered(step, r.frames) == NonEmpty(frames)
  {
    if frames != [] {
      var n := |frames| - 1;
      StreamRoundTrip(step, frames[..n]);
      var r := FeedAll(START, Wires(step, frames[..n]));
      FeedAllConcat(START, Wires(step, frames[..n]), Wire(step, frames[n]));
      DecodeWire(step, r, frames[n]);
      DeliveredPacket(step, r.frames, frames[n]);
    }
  }

  // Chunked decoding

  /** The decoder restarted on a new chunk takes its previous byte from the decoded data. */
  function Resume(r: Rx): Rx {
    r.(last := if r.partial == [] then 0 else r.partial[|r.partial| - 1])
  }

  function DecodeChunks(r: Rx, chunks: seq<seq<Byte>>): Rx {
    if chunks == [] then r
    else FeedAll(Resume(DecodeChunks(r, chunks[..|chunks| - 1])), chunks[|chunks| - 1])
  }

  /** One read of the poll handler: a full buffer is discarded first. */
  function Poll(size: nat, r: Rx, chunk: seq<Byte>): Rx {
    FeedAll(Resume(if |r.partial| >= size then r.(partial := []) else r), chunk)
  }

  function PollAll(size: nat, r: Rx, chunks: seq<seq<Byte>>): Rx {
    if chunks == [] then r
    else Poll(size, PollAll(size, r, chunks[..|chunks| - 1]), chunks[|chunks| - 1])
  }

  /** Without a discard the poll handler is the plain chunked decoder. */
  lemma {:induction false} PollIsDecode(size: nat, r: Rx, chunks: seq<seq<Byte>>)
    requires forall k :: 0 <= k < |chunks| ==> |PollAll(size, r, chunks[..k]).partial| < size
    ensures PollAll(size, r, chunks) == DecodeChunks(r, chunks)
  {
    if chunks != [] {
      var n := |chunks| - 1;
      forall k | 0 <= k < n ensures |PollAll(size, r, chunks[..n][..k]).partial| < size {
        assert chunks[..n][..k] == chunks[..k];
      }
      PollIsDecode(size, r, chunks[..n]);
    }
  }

  /** A cut that separates an escaped ESC from a following byte that looks like the rest of an escape. */
  predicate MisleadingCut(s: seq<Byte>, n: nat) {
    2 <= n < |s| && s[n - 2] == ESC && s[n - 1] == ESC_ESC && (s[n] == ESC_END || s[n] == ESC_ESC)
  }

  /** The cut before chunk `k` is misleading. */
  predicate CutMisleads(chunks: seq<seq<Byte>>, k: nat)
    requires k <= |chunks|
  {
    MisleadingCut(Concat(chunks), |Concat(chunks[..k])|)
  }

  ghost predicate CleanCuts(chunks: seq<seq<Byte>>) {
    forall k :: 0 < k < |chunks| ==> !CutMisleads(chunks, k)
  }

  function Total(frames: seq<seq<Byte>>): nat {
    if frames == [] then 0 else Total(frames[..|frames| - 1]) + |frames[|frames| - 1]|
  }

  function Size(r: Rx): nat { Total(r.frames) + |r.partial| }

  predicate Merges(r: Rx, b: Byte) {
    r.last == ESC && r.partial != [] && (b == ESC_END || b == ESC_ESC)
  }

  lemma FeedSize(r: Rx, b: Byte)
    ensures Size(Feed(r, b)) == Size(r) + (if b == END || Merges(r, b) then 0 else 1)
  {
    if b == END {
      assert (r.frames + [r.partial])[..|r.frames|] == r.frames;
    }
  }

  /** Facts about decoding at once, read off the raw bytes. */
  lemma {:induction false} AtOnceState(s: seq<Byte>)
    ensures var r := FeedAll(START, s);
            && r.last == (if s == [] then 0 else s[|s| - 1])
            && (r.last == ESC ==> r.EndsInEsc())
            && (r.EndsInEsc() && r.last != ESC <==> |s| >= 2 && s[|s| - 2] == ESC && s[|s| - 1] == ESC_ESC)
  {
    if s != [] {
      AtOnceState(s[..|s| - 1]);
    }
  }

  /** The chunked decoder merges whenever the other one does. */
  ghost predicate Follows(c: Rx, t: Rx) {
    (t.last == ESC ==> c.EndsInEsc()) && (t.last == ESC ==> t.EndsInEsc())
  }

  lemma FollowsFeed(c: Rx, t: Rx, b: Byte)
    requires Follows(c, t) && (t.last == ESC ==> c.last == ESC)
    ensures Follows(Feed(c, b), Feed(t, b))
    ensures Size(Feed(c, b)) - Size(c) <= Size(Feed(t, b)) - Size(t)
  {
    FeedSize(c, b);
    FeedSize(t, b);
  }

  lemma {:induction false} FollowsFeedAll(c: Rx, t: Rx, s: seq<Byte>)
    requires Follows(c, t) && (t.last == ESC ==> c.last == ESC)
    ensures var c', t' := FeedAll(c, s), FeedAll(t, s);
            && Follows(c', t') && (t'.last == ESC ==> c'.last == ESC)
            && Size(c') - Size(c) <= Size(t') - Size(t)
  {
    if s != [] {
      FollowsFeedAll(c, t, s[..|s| - 1]);
      FollowsFeed(FeedAll(c, s[..|s| - 1]), FeedAll(t, s[..|s| - 1]), s[|s| - 1]);
    }
  }

  /** Decoders that agree on frames and partial data, and on whether the previous byte was an ESC where
      that matters, agree from the next byte on. */
  lemma {:induction false} SameFeedAll(c: Rx, t: Rx, s: seq<Byte>)
    requires s != [] && c.frames == t.frames && c.partial == t.partial
    requires Feed(c, s[0]) == Feed(t, s[0])
    ensures FeedAll(c, s) == FeedAll(t, s)
  {
    var n := |s| - 1;
    if n == 0 {
      assert s == [s[0]];
      FeedOne(c, s[0]);
      FeedOne(t, s[0]);
    } else {
      SameFeedAll(c, t, s[..n]);
    }
  }

  predicate Misled(t: Rx, b: Byte) {
    t.EndsInEsc() && t.last != ESC && (b == ESC_END || b == ESC_ESC)
  }

  lemma FaithfulChunk(c: Rx, t: Rx, p: seq<Byte>)
    requires p != [] && c.frames == t.frames && c.partial == t.partial
    requires (t.last == ESC ==> t.EndsInEsc()) && !Misled(t, p[0])
    ensures FeedAll(Resume(c), p) == FeedAll(t, p)
  {
    SameFeedAll(Resume(c), t, p);
  }

  lemma MisledChunk(c: Rx, t: Rx, p: seq<Byte>)
    requires p != [] && c.frames == t.frames && c.partial == t.partial
    requires Misled(t, p[0])
    ensures Size(FeedAll(Resume(c), p)) < Size(FeedAll(t, p))
    ensures Follows(FeedAll(Resume(c), p), FeedAll(t, p))
  {
    var r, b := Resume(c), p[0];
    FeedSize(r, b);
    FeedSize(t, b);
    FollowsFeed(r, t, b);
    assert p == [b] + p[1..];
    FeedAllConcat(r, [b], p[1..]);
    FeedAllConcat(t, [b], p[1..]);
    FeedOne(r, b);
    FeedOne(t, b);
    FollowsFeedAll(Feed(r, b), Feed(t, b), p[1..]);
  }

  lemma LaggingChunk(c: Rx, t: Rx, p: seq<Byte>)
    requires Follows(c, t) && Size(c) < Size(t)
    ensures Follows(FeedAll(Resume(c), p), FeedAll(t, p))
    ensures Size(FeedAll(Resume(c), p)) < Size(FeedAll(t, p))
  {
    FollowsFeedAll(Resume(c), t, p);
  }

  /** Chunked decoding after the first `k` chunks: in step with decoding at once while all cuts so far
      were clean, and behind it for good after the first misleading one. */
  lemma {:induction false} ChunksTrack(chunks: seq<seq<Byte>>)
    requires forall k :: 0 <= k < |chunks| ==> chunks[k] != []
    ensures var c, t := DecodeChunks(START, chunks), FeedAll(START, Concat(chunks));
            && (CleanCuts(chunks) ==> c.frames == t.frames && c.partial == t.partial)
            && (!CleanCuts(chunks) ==> Follows(c, t) && Size(c) < Size(t))
  {
    if chunks != [] {
      var n := |chunks| - 1;
      var before, p := chunks[..n], chunks[n];
      var s := Concat(before);
      ChunksTrack(before);
      assert chunks == before + [p];
      ConcatSnoc(before, p);
      FeedAllConcat(START, s, p);
      AtOnceState(s);
      CutsSnoc(before, p);
      NextChunk(DecodeChunks(START, before), FeedAll(START, s), p, CleanCuts(before), MisleadingCut(s + p, |s|));
    }
  }

  lemma NextChunk(c: Rx, t: Rx, p: seq<Byte>, clean: bool, misled: bool)
    requires p != [] && (t.last == ESC ==> t.EndsInEsc()) && (misled <==> Misled(t, p[0]))
    requires clean ==> c.frames == t.frames && c.partial == t.partial
    requires !clean ==> Follows(c, t) && Size(c) < Size(t)
    ensures var c', t' := FeedAll(Resume(c), p), FeedAll(t, p);
            if clean && !misled then c'.frames == t'.frames && c'.partial == t'.partial
            else Follows(c', t') && Size(c') < Size(t')
  {
    if !clean {
      LaggingChunk(c, t, p);
    } else if misled {
      MisledChunk(c, t, p);
    } else {
      FaithfulChunk(c, t, p);
    }
  }

  lemma {:induction false} ConcatGrows(parts: seq<seq<Byte>>, k: nat)
    requires k < |parts| && forall i :: 0 <= i < |parts| ==> parts[i] != []
    ensures |Concat(parts[..k])| < |Concat(parts)|
  {
    if k > 0 {
      ConcatGrows(parts[1..], k - 1);
      assert parts[..k][1..] == parts[1..][..k - 1];
    }
  }

  lemma CutKept(before: seq<seq<Byte>>, p: seq<Byte>, k: nat)
    requires k < |before| && forall i :: 0 <= i < |before| ==> before[i] != []
    ensures CutMisleads(before + [p], k) <==> CutMisleads(before, k)
  {
    assert (before + [p])[..k] == before[..k];
    ConcatSnoc(before, p);
    ConcatGrows(before, k);
  }

  lemma LastCut(before: seq<seq<Byte>>, p: seq<Byte>)
    ensures CutMisleads(before + [p], |before|) <==> MisleadingCut(Concat(before) + p, |Concat(before)|)
  {
    assert (before + [p])[..|before|] == before;
    ConcatSnoc(before, p);
  }

  lemma CutsSnoc(before: seq<seq<Byte>>, p: seq<Byte>)
    requires p != [] && forall i :: 0 <= i < |before| ==> before[i] != []
    ensures var s := Concat(before);
            CleanCuts(before + [p]) <==> CleanCuts(before) && !MisleadingCut(s + p, |s|)
  {
    LastCut(before, p);
    forall k | 0 < k < |before| ensures CutMisleads(before + [p], k) <==> CutMisleads(before, k) {
      CutKept(before, p, k);
    }
  }

  /** Decoding chunk by chunk gives the frames and the leftover of decoding the stream at once if and only
      if no cut separates an escaped ESC from a byte that continues an escape. */
  lemma ChunkingHarmlessIff(chunks: seq<seq<Byte>>)
    requires forall k :: 0 <= k < |chunks| ==> chunks[k] != []
    ensures var c, t := DecodeChunks(START, chunks), FeedAll(START, Concat(chunks));
            c.frames == t.frames && c.partial == t.partial <==> CleanCuts(chunks)
  {
    ChunksTrack(chunks);
  }

  /** End to end: any packets, cut into any chunks without a misleading cut, arrive unchanged. */
  lemma PacketsSurviveChunking(step: (Word, Byte) -> Word, frames: seq<seq<Byte>>, chunks: seq<seq<Byte>>)
    requires forall k :: 0 <= k < |chunks| ==> chunks[k] != []
    requires Concat(chunks) == Wires(step, frames) && CleanCuts(chunks)
    ensures Delivered(step, DecodeChunks(START, chunks).frames) == NonEmpty(frames)
    ensures DecodeChunks(START, chunks).partial == []
  {
    ChunksTrack(chunks);
    StreamRoundTrip(step, frames);
  }

  /** A cut that does harm: an escaped ESC ends one read and the next begins with ESC_END. */
  lemma MisleadingCutExists()
    ensures var chunks: seq<seq<Byte>> := [[ESC, ESC_ESC], [ESC_END]];
            var c, t := DecodeChunks(START, chunks), FeedAll(START, Concat(chunks));
            c.frames != t.frames || c.partial != t.partial
  {
    var a: seq<Byte>, b: seq<Byte> := [ESC, ESC_ESC], [ESC_END];
    CutBetween(a, b);
  }

  lemma CutBetween(a: seq<Byte>, b: seq<Byte>)
    requires a != [] && b != [] && MisleadingCut(a + b, |a|)
    ensures var c, t := DecodeChunks(START, [a, b]), FeedAll(START, Concat([a, b]));
            c.frames != t.frames || c.partial != t.partial
  {
    var one, two := [a], [a, b];
    assert two == one + [b] && two[..1] == one;
    assert one[1..] == [];
    assert Concat(one) == a;
    ConcatSnoc(one, b);
    assert CutMisleads(two, 1);
    ChunkingHarmlessIff(two);
  }
}
