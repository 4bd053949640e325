/** Two pieces of the ST25R3911B reader driver: the interrupt-mask shadow and the CRC_A routine. */
module St25r {

  const IRQ_REG_CNT: nat := 3

  // Interrupt masks

  /** A 32-bit mask as its four bytes, least significant first; the driver only combines masks bit by bit
      and takes them apart by bytes. */
  type Mask = m: seq<bv8> | |m| == 4 witness [0, 0, 0, 0]

  /** Bits to set win over bits to clear. */
  function ModifiedByte(m: bv8, clr: bv8, put: bv8): bv8 { (m & !clr) | put }

  /** The bits a call may change. */
  function TouchedByte(m: bv8, clr: bv8, put: bv8): bv8 { (!m & put) | (m & clr) }

  function Modified(m: Mask, clr: Mask, put: Mask): (r: Mask)
    ensures forall i :: 0 <= i < 4 ==> r[i] == ModifiedByte(m[i], clr[i], put[i])
  {
    seq(4, i requires 0 <= i < 4 => ModifiedByte(m[i], clr[i], put[i]))
  }

  function Touched(m: Mask, clr: Mask, put: Mask): (r: Mask)
    ensures forall i :: 0 <= i < 4 ==> r[i] == TouchedByte(m[i], clr[i], put[i])
  {
    seq(4, i requires 0 <= i < 4 => TouchedByte(m[i], clr[i], put[i]))
  }

  /** A bit ends up set if the call sets it, clear if it only clears it, and is kept otherwise. */
  lemma SetWins(m: bv8, clr: bv8, put: bv8)
    ensures ModifiedByte(m, clr, put) & put == put
    ensures ModifiedByte(m, clr, put) & !put == m & !clr & !put
  {}

  /** A byte without a touched bit keeps its value, so skipping its register loses nothing; and only such
      a byte does, unless a bit is both set already and listed for clearing and setting. */
  lemma UntouchedByte(m: bv8, clr: bv8, put: bv8)
    ensures TouchedByte(m, clr, put) == 0 ==> ModifiedByte(m, clr, put) == m
    ensures ModifiedByte(m, clr, put) == m ==> TouchedByte(m, clr, put) & !(m & clr & put) == 0
  {}

  class IrqMask {
    var shadow: Mask
    const regs: array<bv8>

    ghost predicate Valid() { regs.Length == IRQ_REG_CNT }

    /** The registers of the chip hold the low 24 bits of the shadow. */
    ghost predicate Agrees()
      requires Valid()
      reads this, regs
    {
      forall i :: 0 <= i < IRQ_REG_CNT ==> regs[i] == shadow[i]
    }

    constructor ()
      ensures Valid() && Agrees() && shadow == [0, 0, 0, 0] && fresh(regs)
    {
      shadow := [0, 0, 0, 0];
      regs := new bv8[IRQ_REG_CNT](_ => 0);
    }

    /** Without a bus error the registers follow the shadow, although only touched bytes are written. If the
        write of register `failAt` fails, the registers from there on keep their contents while the shadow
        has moved. */
    method Modify(clr: Mask, put: Mask, failAt: nat) returns (ok: bool)
      requires Valid() && Agrees()
      modifies this, regs
      ensures shadow == Modified(old(shadow), clr, put)
      ensures ok <==> !(failAt < IRQ_REG_CNT && Touched(old(shadow), clr, put)[failAt] != 0)
      ensures forall i :: 0 <= i < IRQ_REG_CNT ==> regs[i] == if ok || i < failAt then shadow[i] else old(shadow)[i]
    {
      var was := shadow;
      var mask := Touched(was, clr, put);
      shadow := Modified(was, clr, put);
      ok := true;
      for i := 0 to IRQ_REG_CNT
        invariant ok && shadow == Modified(was, clr, put)
        invariant failAt < i ==> mask[failAt] == 0
        invariant forall j :: 0 <= j < i ==> regs[j] == shadow[j]
        invariant forall j :: i <= j < IRQ_REG_CNT ==> regs[j] == was[j]
      {
        if mask[i] == 0 {
          UntouchedByte(was[i], clr[i], put[i]);
          continue;
        }
        if i == failAt {
          return false;
        }
        regs[i] := shadow[i];
      }
    }
  }

  /** `st25r3911b_irq_enable`: an interrupt is enabled by clearing its mask bit. */
  method Enable(irq: IrqMask, mask: Mask, failAt: nat) returns (ok: bool)
    requires irq.Valid() && irq.Agrees()
    modifies irq, irq.regs
    ensures forall i :: 0 <= i < 4 ==> irq.shadow[i] == old(irq.shadow)[i] & !mask[i]
    ensures ok ==> irq.Agrees()
  {
    ok := irq.Modify(mask, [0, 0, 0, 0], failAt);
    forall i | 0 <= i < 4 ensures irq.shadow[i] == old(irq.shadow)[i] & !mask[i] {
      OnlyClears(old(irq.shadow)[i], mask[i]);
    }
  }

  /** `st25r3911b_irq_disable`: and disabled by setting it. */
  method Disable(irq: IrqMask, mask: Mask, failAt: nat) returns (ok: bool)
    requires irq.Valid() && irq.Agrees()
    modifies irq, irq.regs
    ensures forall i :: 0 <= i < 4 ==> irq.shadow[i] == old(irq.shadow)[i] | mask[i]
    ensures ok ==> irq.Agrees()
  {
    ok := irq.Modify([0, 0, 0, 0], mask, failAt);
    forall i | 0 <= i < 4 ensures irq.shadow[i] == old(irq.shadow)[i] | mask[i] {
      OnlySets(old(irq.shadow)[i], mask[i]);
    }
  }

  lemma OnlyClears(m: bv8, mask: bv8)
    ensures ModifiedByte(m, mask, 0) == m & !mask
  {}

  lemma OnlySets(m: bv8, mask: bv8)
    ensures ModifiedByte(m, 0, mask) == m | mask
  {}

  /** One call of `st25r3911b_irq_modify`; enabling clears mask bits, disabling sets them. */
  datatype IrqCall = IrqCall(clr: Mask, put: Mask)

  function ModifiedAll(m: Mask, calls: seq<IrqCall>): Mask {
    if calls == [] then m
    else
      var n := |calls| - 1;
      Modified(ModifiedAll(m, calls[..n]), calls[n].clr, calls[n].put)
  }

  /** After any sequence of calls without bus errors the registers still agree with the shadow. */
  method ModifyAll(irq: IrqMask, calls: seq<IrqCall>)
    requires irq.Valid() && irq.Agrees()
    modifies irq, irq.regs
    ensures irq.Agrees() && irq.shadow == ModifiedAll(old(irq.shadow), calls)
  {
    for i := 0 to |calls|
      invariant irq.Agrees() && irq.shadow == ModifiedAll(old(irq.shadow), calls[..i])
    {
      assert calls[..i + 1][..i] == calls[..i];
      var ok := irq.Modify(calls[i].clr, calls[i].put, IRQ_REG_CNT);
    }
    assert calls[..|calls|] == calls;
  }

  // CRC_A

  const CRC_INITIAL: bv32 := 0x6363

  /** The byte step of the driver: the data byte mixed with the low half, spread over the register. */
  function ByteStep(crc: bv32, data: bv8): bv32 {
    Spread(crc >> 8, Mix(data ^ ((crc & 0xFF) as bv8)) as bv32)
  }

  function Mix(byte: bv8): bv8 { byte ^ (byte << 4) }

  function Spread(high: bv32, byte: bv32): bv32 {
    high ^ (byte << 8) ^ (byte << 3) ^ (byte >> 4)
  }

  /** One bit of the reflected CRC with polynomial 0x8408. */
  function BitStep(crc: bv32): bv32 {
    if crc & 1 == 1 then (crc >> 1) ^ 0x8408 else crc >> 1
  }

  function Bits4(crc: bv32): bv32 { BitStep(BitStep(BitStep(BitStep(crc)))) }

  function SerialStep(crc: bv32, data: bv8): bv32 { Bits4(Bits4(crc ^ (data as bv32))) }

  /** Four bit steps without a test: no bit the polynomial feeds back is shifted out again so soon. */
  function Nibble(c: bv32): bv32 { (c >> 4) ^ ((c & 0xF) << 12) ^ ((c & 0xF) << 7) ^ (c & 0xF) }

  /** What a bit shifted out feeds back: the polynomial 0x8408, bit by bit. */
  function Tap(b: bv32): bv32 { (b << 15) ^ (b << 10) ^ (b << 3) }

  lemma LowBit(c: bv32)
    ensures c & 1 == 0 || c & 1 == 1
  {}

  lemma OneBit(c: bv32, b: bv32)
    requires b == c & 1
    ensures BitStep(c) == (c >> 1) ^ Tap(b)
  {
    LowBit(c);
    if b == 1 {
      assert Tap(1) == 0x8408;
    } else {
      assert Tap(0) == 0;
    }
  }

  lemma TwoTaps(c: bv32, d: bv32)
    requires d == (c >> 1) ^ Tap(c & 1)
    ensures (d >> 1) ^ Tap(d & 1) == (c >> 2) ^ ((c & 3) << 14) ^ ((c & 3) << 9) ^ ((c & 3) << 2)
  {}

  lemma TwoBits(c: bv32)
    ensures BitStep(BitStep(c)) == (c >> 2) ^ ((c & 3) << 14) ^ ((c & 3) << 9) ^ ((c & 3) << 2)
  {
    var d := BitStep(c);
    OneBit(c, c & 1);
    OneBit(d, d & 1);
    TwoTaps(c, d);
  }

  lemma FourBits(c: bv32)
    ensures Bits4(c) == Nibble(c)
  {
    TwoBits(c);
    TwoBits(BitStep(BitStep(c)));
  }

  function Folded(x: bv32): bv32 { (x & 0xFF) ^ ((x << 4) & 0xF0) }

  lemma NibbleParts(x: bv32, n: bv32, m: bv32)
    requires n == x & 0xF && m == ((x >> 4) ^ x) & 0xF
    ensures Nibble(x) & 0xF == m
    ensures Nibble(x) >> 4 == (x >> 8) ^ (n << 8) ^ (n << 3)
    ensures Folded(x) == n ^ (m << 4)
  {}

  /** Both forms of two nibble steps, in terms of the nibbles fed back. */
  function FedBack(high: bv32, n: bv32, m: bv32): bv32 {
    high ^ (n << 8) ^ (n << 3) ^ (m << 12) ^ (m << 7) ^ m
  }

  lemma NibblesFeedBack(x: bv32, n: bv32, m: bv32)
    requires n == x & 0xF && m == ((x >> 4) ^ x) & 0xF
    ensures Nibble(Nibble(x)) == FedBack(x >> 8, n, m)
  {
    NibbleParts(x, n, m);
  }

  lemma SpreadFeedsBack(x: bv32, n: bv32, m: bv32)
    requires n == x & 0xF && m == ((x >> 4) ^ x) & 0xF
    ensures Spread(x >> 8, Folded(x)) == FedBack(x >> 8, n, m)
  {}

  lemma TwoNibbles(x: bv32)
    ensures Nibble(Nibble(x)) == Spread(x >> 8, Folded(x))
  {
    NibblesFeedBack(x, x & 0xF, ((x >> 4) ^ x) & 0xF);
    SpreadFeedsBack(x, x & 0xF, ((x >> 4) ^ x) & 0xF);
  }

  lemma MixIsFolded(crc: bv32, data: bv8)
    ensures Mix(data ^ ((crc & 0xFF) as bv8)) as bv32 == Folded(crc ^ (data as bv32))
  {}

  lemma HighHalfKept(crc: bv32, data: bv8)
    ensures (crc ^ (data as bv32)) >> 8 == crc >> 8
  {}

  /** The shift-and-xor step is eight steps of the bit-serial form. */
  lemma ByteStepIsSerial(crc: bv32, data: bv8)
    ensures ByteStep(crc, data) == SerialStep(crc, data)
  {
    var x := crc ^ (data as bv32);
    FourBits(x);
    FourBits(Nibble(x));
    TwoNibbles(x);
    MixIsFolded(crc, data);
    HighHalfKept(crc, data);
  }

  lemma ByteStepStays16(crc: bv32, data: bv8)
    requires crc < 0x10000
    ensures ByteStep(crc, data) < 0x10000
  {}

  function Fold(step: (bv32, bv8) -> bv32, crc: bv32, data: seq<bv8>): bv32 {
    if data == [] then crc else step(Fold(step, crc, data[..|data| - 1]), data[|data| - 1])
  }

  /** The bit-serial CRC of a buffer, continued from `crc`. */
  function CrcFrom(crc: bv32, data: seq<bv8>): bv32 { Fold(SerialStep, crc, data) }

  lemma {:induction false} FoldConcat(step: (bv32, bv8) -> bv32, crc: bv32, a: seq<bv8>, b: seq<bv8>)
    ensures Fold(step, crc, a + b) == Fold(step, Fold(step, crc, a), b)
  {
    if b == [] {
      assert a + b == a;
    } else {
      FoldConcat(step, crc, a, b[..|b| - 1]);
      assert (a + b)[..|a + b| - 1] == a + b[..|b| - 1];
    }
  }

  lemma CrcConcat(crc: bv32, a: seq<bv8>, b: seq<bv8>)
    ensures CrcFrom(crc, a + b) == CrcFrom(CrcFrom(crc, a), b)
  {
    FoldConcat(SerialStep, crc, a, b);
  }

  lemma FoldNext(step: (bv32, bv8) -> bv32, crc: bv32, data: seq<bv8>, i: nat)
    requires i < |data|
    ensures Fold(step, crc, data[..i + 1]) == step(Fold(step, crc, data[..i]), data[i])
  {
    assert data[..i + 1][..i] == data[..i];
  }

  /** The examples of annex B of ISO/IEC 14443-3. */
  lemma KnownCrcs()
    ensures CrcFrom(CRC_INITIAL, [0x00, 0x00]) == 0x1EA0
    ensures CrcFrom(CRC_INITIAL, [0x12, 0x34]) == 0xCF26
  {
    TwoBytes(0x00, 0x00);
    TwoBytes(0x12, 0x34);
  }

  lemma TwoBytes(a: bv8, b: bv8)
    ensures CrcFrom(CRC_INITIAL, [a, b]) == ByteStep(ByteStep(CRC_INITIAL, a), b)
  {
    var s, one := [a, b], [a];
    assert s[..1] == one && one[..0] == [];
    FoldNext(SerialStep, CRC_INITIAL, s, 0);
    FoldNext(SerialStep, CRC_INITIAL, s, 1);
    assert s[..0] == [] && s[..2] == s;
    ByteStepIsSerial(CRC_INITIAL, a);
    ByteStepIsSerial(ByteStep(CRC_INITIAL, a), b);
  }

  datatype Result = Invalid | Crc(high: bv8, low: bv8)

  /** `st25r3911b_nfca_crc_calculate`: the loop computes the bit-serial CRC_A, most significant byte first. */
  method CrcCalculate(data: seq<bv8>) returns (r: Result)
    ensures r == Invalid <==> data == []
    ensures data != [] ==>
              var crc := CrcFrom(CRC_INITIAL, data);
              crc < 0x10000 && r == Crc((crc >> 8) as bv8, (crc & 0xFF) as bv8)
  {
    if |data| == 0 {
      return Invalid;
    }
    var crc := CRC_INITIAL;
    var i := 0;
    while i < |data|
      invariant 0 <= i <= |data|
      invariant crc < 0x10000 && crc == CrcFrom(CRC_INITIAL, data[..i])
    {
      ByteStepIsSerial(crc, data[i]);
      ByteStepStays16(crc, data[i]);
      FoldNext(SerialStep, CRC_INITIAL, data, i);
      crc := ByteStep(crc, data[i]);
      i := i + 1;
    }
    assert data[..i] == data;
    return Crc((crc >> 8) as bv8, (crc & 0xFF) as bv8);
  }
}
