/** The profiler's binary event stream: one record per event, an identifier byte followed by
    little-endian 32-bit words, the first of which is the time stamp. */
module ProfilerWire {

  import opened Common

  const WORDS: nat := 0x1_0000_0000

  /** `sys_put_le32`: the byte of least weight first. */
  function Le32(w: nat): (s: seq<Byte>)
    requires w < WORDS
    ensures |s| == 4 && s[0] as int + 0x100 * (s[1] as int) + 0x1_0000 * (s[2] as int) + 0x100_0000 * (s[3] as int) == w
  {
    Weights(w);
    [w % 256, w / 256 % 256, w / 65536 % 256, w / 16777216]
  }

  lemma Weights(w: nat)
    requires w < WORDS
    ensures w % 256 + 0x100 * (w / 256 % 256) + 0x1_0000 * (w / 65536 % 256) + 0x100_0000 * (w / 16777216) == w
  {
    var b := w / 256 / 256;
    assert w / 65536 == b && w / 16777216 == b / 256;
    assert w == w % 256 + 256 * (w / 256 % 256 + 256 * b);
  }

  function FromLe32(s: seq<Byte>): (w: nat)
    requires |s| == 4
    ensures w < WORDS
  {
    s[0] as int + 256 * (s[1] as int) + 65536 * (s[2] as int) + 16777216 * (s[3] as int)
  }

  lemma Le32RoundTrip(w: nat)
    requires w < WORDS
    ensures FromLe32(Le32(w)) == w
  {
  }

  /** A data word and its two's-complement reading. */
  function ToWord(v: int): (w: nat)
    ensures w < WORDS
  {
    v % WORDS
  }

  function FromWord(w: nat, signed: bool): int {
    if signed && w >= WORDS / 2 then w - WORDS else w
  }

  /** The host reads a value as signed when its type name starts with `s`. */
  predicate IsSigned(ty: string) { ty != [] && ty[0] == 's' }

  /** What a word can hold for each type a device can register, by the name it is registered under: any unsigned
      or any signed number of 32 bits. A string argument is one word, of which the host makes a signed number. */
  predicate Fits(v: int, ty: string) {
    || ((ty == "u8" || ty == "u16" || ty == "u32" || ty == "t") && 0 <= v <= 4294967295)
    || ((ty == "s8" || ty == "s16" || ty == "s32" || ty == "s") && -2147483648 <= v <= 2147483647)
  }

  /** Every such value comes back from the word written for it, so in particular every value of the type. */
  lemma WordRoundTrip(v: int, ty: string)
    requires Fits(v, ty)
    ensures FromWord(ToWord(v), IsSigned(ty)) == v
  {
    assert "u8"[0] == "u16"[0] == "u32"[0] == 'u' && "s8"[0] == "s16"[0] == "s32"[0] == "s"[0] == 's';
  }

  datatype Event = Event(id: Byte, stamp: nat, values: seq<int>)

  type Types = map<Byte, seq<string>>

  ghost predicate WellTyped(types: Types, e: Event) {
    && e.id in types && e.stamp < WORDS && |e.values| == |types[e.id]|
    && forall i :: 0 <= i < |e.values| ==> Fits(e.values[i], types[e.id][i])
  }

  function Words(values: seq<int>): seq<Byte> {
    if values == [] then [] else Words(values[..|values| - 1]) + Le32(ToWord(values[|values| - 1]))
  }

  function Record(e: Event): seq<Byte>
    requires e.stamp < WORDS
  {
    [e.id] + Le32(e.stamp) + Words(e.values)
  }

  ghost predicate AllWellTyped(types: Types, es: seq<Event>) {
    forall i :: 0 <= i < |es| ==> WellTyped(types, es[i])
  }

  ghost function Stream(types: Types, es: seq<Event>): seq<Byte>
    requires AllWellTyped(types, es)
  {
    if es == [] then [] else Record(es[0]) + Stream(types, es[1..])
  }

  /** The device side: `struct log_event_buf`, filled by advancing a write position. */
  class LogBuffer {
    const data: array<Byte>
    var position: nat

    ghost predicate Valid()
      reads this
    {
      1 <= position <= data.Length
    }

    constructor (size: nat)
      requires size >= 1
      ensures data.Length == size && fresh(data) && Valid()
    {
      data := new Byte[size];
      position := 1;
    }

    method EncodeU32(w: nat)
      requires Valid() && w < WORDS && position + 4 <= data.Length
      modifies this, data
      ensures Valid() && position == old(position) + 4
      ensures data[1..position] == old(data[1..position]) + Le32(w)
    {
      var bytes := Le32(w);
      data[position], data[position + 1] := bytes[0], bytes[1];
      data[position + 2], data[position + 3] := bytes[2], bytes[3];
      position := position + 4;
    }

    method Start(stamp: nat)
      requires stamp < WORDS && 5 <= data.Length
      modifies this, data
      ensures Valid() && position == 5 && data[1..position] == Le32(stamp)
    {
      position := 1;
      EncodeU32(stamp);
    }

    /** Filling the buffer for an event and sending it writes exactly the event's record. */
    method LogEvent(e: Event) returns (sent: seq<Byte>)
      requires e.stamp < WORDS && 5 + 4 * |e.values| <= data.Length
      modifies this, data
      ensures sent == Record(e)
    {
      Start(e.stamp);
      for i := 0 to |e.values|
        invariant Valid() && position == 5 + 4 * i
        invariant data[1..position] == Le32(e.stamp) + Words(e.values[..i])
      {
        ghost var before := Words(e.values[..i]);
        EncodeU32(ToWord(e.values[i]));
        assert e.values[..i + 1][..i] == e.values[..i];
        assert Le32(e.stamp) + before + Le32(ToWord(e.values[i])) == Le32(e.stamp) + (before + Le32(ToWord(e.values[i])));
      }
      assert e.values[..|e.values|] == e.values;
      data[0] := e.id;
      sent := data[..position];
      assert sent == [data[0]] + data[1..position];
    }
  }
}
