/** checksum.cpp: its four CRC functions and what they detect. */
module Checksum {
  import opened CrcTheory
  import opened WordBits
  import opened CrcWords

  type Word8 = w: bv32 | w <= 0xFF
  type Word16 = w: bv32 | w <= 0xFFFF

  const MODBUS := Family(16, 0xA001, true)
  const CCITT := Family(16, 0x1021, false)
  const CRC32 := Family(32, 0xEDB8_8320, true)

  function Crc8Family(polynomial: Word8): Family {
    Family(8, polynomial, false)
  }

  // ------------------------------------------------------------ the code

  // One pass of each inner loop, branch by branch in the words of the code.

  lemma Crc8StepSet(polynomial: Word8, crc: Word8)
    requires crc & 0x80 != 0
    ensures Crc8Family(polynomial).Step(crc) == ((crc << 1) ^ polynomial) & 0xFF
  {
  }

  lemma Crc8StepClear(polynomial: Word8, crc: Word8)
    requires crc & 0x80 == 0
    ensures Crc8Family(polynomial).Step(crc) == (crc << 1) & 0xFF
  {
  }

  lemma ModbusStepSet(crc: Word16)
    requires crc & 1 != 0
    ensures MODBUS.Step(crc) == ((crc >> 1) ^ 0xA001) & 0xFFFF
  {
  }

  lemma ModbusStepClear(crc: Word16)
    requires crc & 1 == 0
    ensures MODBUS.Step(crc) == (crc >> 1) & 0xFFFF
  {
  }

  lemma CcittStepSet(crc: Word16)
    requires crc & 0x8000 != 0
    ensures CCITT.Step(crc) == ((crc << 1) ^ 0x1021) & 0xFFFF
  {
  }

  lemma CcittStepClear(crc: Word16)
    requires crc & 0x8000 == 0
    ensures CCITT.Step(crc) == (crc << 1) & 0xFFFF
  {
  }

  lemma Crc32StepSet(crc: bv32)
    requires crc & 1 != 0
    ensures CRC32.Step(crc) == (crc >> 1) ^ 0xEDB8_8320
  {
    MaskNothing((crc >> 1) ^ 0xEDB8_8320);
  }

  lemma Crc32StepClear(crc: bv32)
    requires crc & 1 == 0
    ensures CRC32.Step(crc) == crc >> 1
  {
    MaskNothing(crc >> 1);
  }

  lemma MaskNothing(c: bv32)
    ensures c & 0xFFFF_FFFF == c
  {
  }

  // What a byte does to each register, and how bytes and bits add up.

  lemma Crc8Fed(polynomial: Word8, crc: Word8, b: bv8)
    ensures Crc8Family(polynomial).Enter(crc, b) == crc ^ (b as bv32) <= 0xFF
  {
    XorFitsByte(crc, b as bv32);
  }

  lemma ModbusFed(crc: Word16, b: bv8)
    ensures MODBUS.Enter(crc, b) == crc ^ (b as bv32) <= 0xFFFF
  {
    XorFitsWord(crc, b as bv32);
  }

  lemma CcittFed(crc: Word16, b: bv8)
    ensures CCITT.Enter(crc, b) == crc ^ (((b as bv32) << 8) & 0xFFFF) <= 0xFFFF
  {
    XorFitsWord(crc, ((b as bv32) << 8) & 0xFFFF);
  }

  lemma Crc32Fed(crc: bv32, b: bv8)
    ensures CRC32.Enter(crc, b) == crc ^ (b as bv32)
  {
  }

  lemma StepThen(f: Family, c: bv32, n: nat)
    ensures f.Steps(c, 0) == c && f.Steps(c, n + 1) == f.Step(f.Steps(c, n))
  {
  }

  lemma ByteThen(f: Family, initial: bv32, data: seq<bv8>, i: nat, fed: bv32, after: bv32, n: nat)
    requires i < |data| && n == 8
    requires fed == f.Enter(f.Crc(initial, data[..i]), data[i]) && after == f.Steps(fed, n)
    ensures f.Crc(initial, data[..i + 1]) == after
  {
    hide f.Steps, f.Enter;
    assert data[..i + 1][..i] == data[..i];
  }

  lemma WholeMessage(f: Family, initial: bv32, data: seq<bv8>)
    ensures f.Crc(initial, data[..0]) == initial && data[..|data|] == data
  {
  }

  method Crc8(data: seq<bv8>, polynomial: Word8, initial: Word8) returns (crc: Word8)
    ensures crc == Crc8Family(polynomial).Crc(initial, data)
  {
    ghost var f := Crc8Family(polynomial);
    hide *;
    WholeMessage(f, initial, data);
    crc := initial;
    for i := 0 to |data|
      invariant crc == f.Crc(initial, data[..i])
    {
      Crc8Fed(polynomial, crc, data[i]);
      crc := crc ^ (data[i] as bv32);
      ghost var fed := crc;
      StepThen(f, fed, 0);
      for bit := 0 to 8
        invariant crc == f.Steps(fed, bit)
      {
        StepThen(f, fed, bit);
        if crc & 0x80 != 0 {
          Crc8StepSet(polynomial, crc);
          crc := ((crc << 1) ^ polynomial) & 0xFF;
        } else {
          Crc8StepClear(polynomial, crc);
          crc := (crc << 1) & 0xFF;
        }
      }
      ByteThen(f, initial, data, i, fed, crc, 8);
    }
  }

  method Crc16Modbus(data: seq<bv8>, initial: Word16) returns (crc: Word16)
    ensures crc == MODBUS.Crc(initial, data)
  {
    hide *;
    WholeMessage(MODBUS, initial, data);
    crc := initial;
    for i := 0 to |data|
      invariant crc == MODBUS.Crc(initial, data[..i])
    {
      ModbusFed(crc, data[i]);
      crc := crc ^ (data[i] as bv32);
      ghost var fed := crc;
      StepThen(MODBUS, fed, 0);
      for bit := 0 to 8
        invariant crc == MODBUS.Steps(fed, bit)
      {
        StepThen(MODBUS, fed, bit);
        if crc & 1 != 0 {
          ModbusStepSet(crc);
          crc := ((crc >> 1) ^ 0xA001) & 0xFFFF;
        } else {
          ModbusStepClear(crc);
          crc := (crc >> 1) & 0xFFFF;
        }
      }
      ByteThen(MODBUS, initial, data, i, fed, crc, 8);
    }
  }

  method Crc16CcittFalse(data: seq<bv8>, initial: Word16) returns (crc: Word16)
    ensures crc == CCITT.Crc(initial, data)
  {
    hide *;
    WholeMessage(CCITT, initial, data);
    crc := initial;
    for i := 0 to |data|
      invariant crc == CCITT.Crc(initial, data[..i])
    {
      CcittFed(crc, data[i]);
      crc := crc ^ (((data[i] as bv32) << 8) & 0xFFFF);
      ghost var fed := crc;
      StepThen(CCITT, fed, 0);
      for bit := 0 to 8
        invariant crc == CCITT.Steps(fed, bit)
      {
        StepThen(CCITT, fed, bit);
        if crc & 0x8000 != 0 {
          CcittStepSet(crc);
          crc := ((crc << 1) ^ 0x1021) & 0xFFFF;
        } else {
          CcittStepClear(crc);
          crc := (crc << 1) & 0xFFFF;
        }
      }
      ByteThen(CCITT, initial, data, i, fed, crc, 8);
    }
  }

  function Complement(c: bv32): bv32 { !c }

  method Crc32(data: seq<bv8>, initial: bv32) returns (r: bv32)
    ensures r == Complement(CRC32.Crc(initial, data))
  {
    hide *;
    WholeMessage(CRC32, initial, data);
    var crc := initial;
    for i := 0 to |data|
      invariant crc == CRC32.Crc(initial, data[..i])
    {
      Crc32Fed(crc, data[i]);
      crc := crc ^ (data[i] as bv32);
      ghost var fed := crc;
      StepThen(CRC32, fed, 0);
      for bit := 0 to 8
        invariant crc == CRC32.Steps(fed, bit)
      {
        StepThen(CRC32, fed, bit);
        if crc & 1 != 0 {
          Crc32StepSet(crc);
          crc := (crc >> 1) ^ 0xEDB8_8320;
        } else {
          Crc32StepClear(crc);
          crc := crc >> 1;
        }
      }
      ByteThen(CRC32, initial, data, i, fed, crc, 8);
    }
    r := Complement(crc);
  }

  // ------------------------------------------------------------ what they detect

  lemma FixedPolynomialsAreProper()
    ensures ProperFamily(MODBUS) && ProperFamily(CCITT) && ProperFamily(CRC32)
  {
    FullMasks();
    FitsBelow(0xA001, 0xFFFF, 16);
    TopBit(0xA001, 0x7FFF, 15);
    FitsBelow(0xEDB8_8320, 0xFFFF_FFFF, 32);
    TopBit(0xEDB8_8320, 0x7FFF_FFFF, 31);
    assert Odd(0x1021);
    ReversedShift(Lsb(0x1021, 16));
    assert Reversed(Lsb(0x1021, 16))[15] == Lsb(0x1021, 16)[0];
  }

  lemma Crc8IsProper(polynomial: Word8)
    ensures ProperFamily(Crc8Family(polynomial)) <==> Odd(polynomial)
  {
    var bits := Lsb(polynomial, 8);
    assert Reversed(bits)[7] == bits[0] == Odd(polynomial);
  }

  /** An 8-bit difference in one byte is always seen by crc8 if and only if its polynomial is odd. */
  lemma Crc8SeesEveryByte(polynomial: Word8, initial: Word8)
    ensures Odd(polynomial) <==>
            forall before: seq<bv8>, x: bv8, y: bv8, after: seq<bv8> | x != y ::
              Crc8Family(polynomial).Crc(initial, before + [x] + after)
              != Crc8Family(polynomial).Crc(initial, before + [y] + after)
  {
    var f := Crc8Family(polynomial);
    Crc8IsProper(polynomial);
    if Odd(polynomial) {
      forall before: seq<bv8>, x: bv8, y: bv8, after: seq<bv8> | x != y
        ensures f.Crc(initial, before + [x] + after) != f.Crc(initial, before + [y] + after)
      {
        assert [x][0] != [y][0];
        ByteBurstChangesCrc(f, initial, before, [x], [y], after);
      }
    } else {
      var x, y := BlindPair(polynomial, initial);
      assert f.Crc(initial, [] + [x] + []) == f.Crc(initial, [] + [y] + []) by {
        assert [] + [x] + [] == [x] && [] + [y] + [] == [y];
      }
    }
  }

  /** For an even polynomial, two one-byte messages with the same crc8. */
  lemma BlindPair(polynomial: Word8, initial: Word8) returns (x: bv8, y: bv8)
    requires !Odd(polynomial)
    ensures x != y
    ensures Crc8Family(polynomial).Crc(initial, [x]) == Crc8Family(polynomial).Crc(initial, [y])
  {
    var f := Crc8Family(polynomial);
    x, y := BlindBytes(polynomial, initial);
    BlindStep(polynomial);
    hide f.Step;
    VanishesForGood(f, 0x80 ^ (polynomial >> 1), 8);
    VanishesForGood(f, 0, 8);
    assert [x][..0] == [] && [y][..0] == [];
  }

  lemma BlindBytes(polynomial: Word8, initial: Word8) returns (x: bv8, y: bv8)
    ensures x != y
    ensures Crc8Family(polynomial).Enter(initial, x) == 0x80 ^ (polynomial >> 1)
    ensures Crc8Family(polynomial).Enter(initial, y) == 0
  {
    NotBlind(polynomial);
    hide Crc8Family;
    x := ByteFor(polynomial, initial, 0x80 ^ (polynomial >> 1));
    y := ByteFor(polynomial, initial, 0);
  }

  lemma NotBlind(polynomial: Word8)
    ensures 0 != 0x80 ^ (polynomial >> 1) <= 0xFF
  {
  }

  /** The byte that brings the register from one value to another. */
  lemma ByteFor(polynomial: Word8, c: Word8, d: bv32) returns (b: bv8)
    requires d <= 0xFF
    ensures Crc8Family(polynomial).Enter(c, b) == d
  {
    XorFitsByte(c, d);
    b := (c ^ d) as bv8;
    XorBack(c, d);
  }

  lemma XorBack(c: bv32, d: bv32)
    requires c ^ d <= 0xFF
    ensures c ^ (((c ^ d) as bv8) as bv32) == d
  {
  }

  lemma BlindStep(polynomial: Word8)
    requires !Odd(polynomial)
    ensures Crc8Family(polynomial).Step(0x80 ^ (polynomial >> 1)) == 0
    ensures Crc8Family(polynomial).Step(0) == 0
  {
  }

  lemma {:induction false} VanishesForGood(f: Family, c: bv32, n: nat)
    requires f.Step(c) == 0 && f.Step(0) == 0 && n > 0
    ensures f.Steps(c, n) == 0
  {
    if n > 1 {
      VanishesForGood(f, c, n - 1);
    } else {
      assert f.Steps(c, 0) == c;
    }
  }

  // ------------------------------------------------------------ the receiver's check

  lemma PairBits(f: Family, low: bv8, high: bv8)
    ensures Join(low, high as bv32) <= 0xFFFF
    ensures Lsb(Join(low, high as bv32), 16) == Lsb(low as bv32, 8) + Lsb(high as bv32, 8)
  {
    PairFits(low, high);
    JoinBits(low, high as bv32, 8);
  }

  lemma PairFits(low: bv8, high: bv8)
    ensures Join(low, high as bv32) <= 0xFFFF && (high as bv32) <= 0xFF_FFFF
  {
  }

  /** Modbus sends the low byte first: exactly the right two bytes make the whole frame check to zero. */
  lemma ModbusTrailer(initial: Word16, data: seq<bv8>, low: bv8, high: bv8)
    ensures MODBUS.Crc(initial, data + [low, high]) == 0
            <==> MODBUS.Crc(initial, data) == Join(low, high as bv32)
  {
    FixedPolynomialsAreProper();
    PairBits(MODBUS, low, high);
    hide Lsb, Join;
    StreamOfTwo(MODBUS, low, high);
    TrailerCheck(MODBUS, initial, data, [low, high], Join(low, high as bv32));
  }

  /** CCITT sends the high byte first. */
  lemma CcittTrailer(initial: Word16, data: seq<bv8>, high: bv8, low: bv8)
    ensures CCITT.Crc(initial, data + [high, low]) == 0
            <==> CCITT.Crc(initial, data) == Join(low, high as bv32)
  {
    FixedPolynomialsAreProper();
    PairBits(CCITT, low, high);
    var l, h := Lsb(low as bv32, 8), Lsb(high as bv32, 8);
    hide Lsb, Join;
    StreamOfTwo(CCITT, high, low);
    ReversedConcat(l, h);
    TrailerCheck(CCITT, initial, data, [high, low], Join(low, high as bv32));
  }

  /** The value crc32 returns. */
  function Crc32Value(initial: bv32, data: seq<bv8>): bv32 {
    Complement(CRC32.Crc(initial, data))
  }

  /** Four bytes, least significant first, as one word. */
  function Word(b: (bv8, bv8, bv8, bv8)): bv32 {
    Join(b.0, Join(b.1, Join(b.2, b.3 as bv32)))
  }

  /** What crc32 returns for any frame that carries its own crc32. */
  const CRC32_RESIDUE: bv32 := Crc32Value(0, [0xFF, 0xFF, 0xFF, 0xFF])

  lemma WordBounds(b: (bv8, bv8, bv8, bv8))
    ensures (b.3 as bv32) <= 0xFF_FFFF && Join(b.2, b.3 as bv32) <= 0xFF_FFFF
    ensures Join(b.1, Join(b.2, b.3 as bv32)) <= 0xFF_FFFF
  {
  }

  lemma JoinBits4(b: (bv8, bv8, bv8, bv8))
    ensures Lsb(Word(b), 32)
         == Lsb(b.0 as bv32, 8) + (Lsb(b.1 as bv32, 8) + (Lsb(b.2 as bv32, 8) + Lsb(b.3 as bv32, 8)))
  {
    WordBounds(b);
    hide Lsb, Join;
    JoinBits(b.0, Join(b.1, Join(b.2, b.3 as bv32)), 24);
    JoinBits(b.1, Join(b.2, b.3 as bv32), 16);
    JoinBits(b.2, b.3 as bv32, 8);
  }

  lemma StreamOfFour(a: bv8, b: bv8, c: bv8, d: bv8)
    ensures CRC32.Stream([a, b, c, d])
         == (CRC32.Byte(a) + CRC32.Byte(b)) + (CRC32.Byte(c) + CRC32.Byte(d))
  {
    hide CRC32.Stream, CRC32.Byte;
    StreamConcat(CRC32, [a, b], [c, d]);
    assert [a, b] + [c, d] == [a, b, c, d];
    StreamOfTwo(CRC32, a, b);
    StreamOfTwo(CRC32, c, d);
  }

  lemma WordBits4(b: (bv8, bv8, bv8, bv8))
    ensures CRC32.Stream([b.0, b.1, b.2, b.3]) == Lsb(Word(b), 32)
  {
    hide Lsb, Word, CRC32.Stream;
    JoinBits4(b);
    StreamOfFour(b.0, b.1, b.2, b.3);
    Associates(CRC32.Byte(b.0), CRC32.Byte(b.1), CRC32.Byte(b.2), CRC32.Byte(b.3));
  }

  lemma Associates(a: Bits, b: Bits, c: Bits, d: Bits)
    ensures (a + b) + (c + d) == a + (b + (c + d))
  {
  }

  lemma ComplementIsPlus(c: bv32)
    ensures Complement(c) == Plus(c, 0xFFFF_FFFF)
    ensures Complement(Complement(c)) == c
  {
  }

  lemma AllOnesWord()
    ensures Word((0xFF, 0xFF, 0xFF, 0xFF)) == 0xFFFF_FFFF
  {
  }

  /** crc32 over a frame and four more bytes gives the residue exactly when those bytes are the frame's crc32. */
  lemma Crc32Trailer(initial: bv32, data: seq<bv8>, b: (bv8, bv8, bv8, bv8))
    ensures Crc32Value(initial, data + [b.0, b.1, b.2, b.3]) == CRC32_RESIDUE
            <==> Crc32Value(initial, data) == Word(b)
  {
    var trailer, c := [b.0, b.1, b.2, b.3], CRC32.Crc(initial, data);
    var full, base := CRC32.Crc(initial, data + trailer), CRC32.Crc(0, [0xFF, 0xFF, 0xFF, 0xFF]);
    FixedPolynomialsAreProper();
    AllOnesWord();
    ComplementIsPlus(c);
    ComplementIsPlus(full);
    ComplementIsPlus(base);
    Crc32Registers(initial, data, b);
    hide Lsb, Plus, Word, Clock, Complement, CRC32.Crc;
    var poly := Lsb(0xEDB8_8320, 32);
    LsbOfPlus(c, 0xFFFF_FFFF, 32);
    ComplementedTrailer(Lsb(c, 32), Lsb(Word(b), 32), Lsb(0xFFFF_FFFF, 32), poly);
    ViewIsInjective(CRC32, Plus(c, 0xFFFF_FFFF), Word(b));
    ViewIsInjective(CRC32, full, base);
  }

  lemma Crc32Registers(initial: bv32, data: seq<bv8>, b: (bv8, bv8, bv8, bv8))
    ensures var poly, zero := Lsb(0xEDB8_8320, 32), Zeros(32);
      && Lsb(CRC32.Crc(initial, data + [b.0, b.1, b.2, b.3]), 32)
         == Clock(Lsb(CRC32.Crc(initial, data), 32), Lsb(Word(b), 32), poly)
      && Lsb(CRC32.Crc(0, [0xFF, 0xFF, 0xFF, 0xFF]), 32) == Clock(zero, Lsb(0xFFFF_FFFF, 32), poly)
  {
    AllOnesWord();
    hide Lsb, Word, Clock, CRC32.Crc, CRC32.Stream;
    var trailer, ff := [b.0, b.1, b.2, b.3], [0xFF, 0xFF, 0xFF, 0xFF];
    WordBits4(b);
    WordBits4((0xFF, 0xFF, 0xFF, 0xFF));
    CrcIsClock(CRC32, initial, data);
    CrcIsClock(CRC32, initial, data + trailer);
    CrcIsClock(CRC32, 0, ff);
    StreamConcat(CRC32, data, trailer);
    ClockConcat(Lsb(initial, 32), CRC32.Stream(data), CRC32.Stream(trailer), Lsb(0xEDB8_8320, 32));
    LsbOfZero(32);
  }
}
