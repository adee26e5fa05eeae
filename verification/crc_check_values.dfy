/** The four CRCs of the text 123456789, whose values are published with each algorithm. */
module CrcCheckValues {
  import opened CrcWords
  import opened Checksum

  const DIGITS: seq<bv8> := [0x31, 0x32, 0x33, 0x34, 0x35, 0x36, 0x37, 0x38, 0x39]

  /** The byte takes the register from `before` to `after`. */
  ghost predicate Absorbs(f: Family, before: bv32, b: bv8, after: bv32) {
    f.Absorb(before, b) == after
  }

  lemma CrcThen(f: Family, initial: bv32, n: nat, before: bv32, after: bv32)
    requires n < 9 && f.Crc(initial, DIGITS[..n]) == before && Absorbs(f, before, DIGITS[n], after)
    ensures f.Crc(initial, DIGITS[..n + 1]) == after
  {
    hide f.Absorb;
    assert DIGITS[..n + 1][..n] == DIGITS[..n];
  }

  /** The registers after each digit, and so after all of them. */
  lemma NineDigits(f: Family, initial: bv32, r: seq<bv32>)
    requires |r| == 9 && Absorbs(f, initial, DIGITS[0], r[0])
    requires forall k | 0 < k < 9 :: Absorbs(f, r[k - 1], DIGITS[k], r[k])
    ensures f.Crc(initial, DIGITS) == r[8]
  {
    hide f.Absorb, f.Crc, Absorbs;
    NoDigits(f, initial);
    for n := 0 to 9
      invariant f.Crc(initial, DIGITS[..n]) == if n == 0 then initial else r[n - 1]
    {
      CrcThen(f, initial, n, if n == 0 then initial else r[n - 1], r[n]);
    }
    assert DIGITS[..9] == DIGITS;
  }

  lemma NoDigits(f: Family, initial: bv32)
    ensures f.Crc(initial, DIGITS[..0]) == initial
  {
  }

  lemma Crc8First()
    ensures Absorbs(Crc8Family(0x07), 0x00, 0x31, 0x97)
    ensures Absorbs(Crc8Family(0x07), 0x97, 0x32, 0x72)
    ensures Absorbs(Crc8Family(0x07), 0x72, 0x33, 0xC0)
  {
  }

  lemma Crc8Second()
    ensures Absorbs(Crc8Family(0x07), 0xC0, 0x34, 0xC2)
    ensures Absorbs(Crc8Family(0x07), 0xC2, 0x35, 0xCB)
    ensures Absorbs(Crc8Family(0x07), 0xCB, 0x36, 0xFD)
  {
  }

  lemma Crc8Third()
    ensures Absorbs(Crc8Family(0x07), 0xFD, 0x37, 0x78)
    ensures Absorbs(Crc8Family(0x07), 0x78, 0x38, 0xC7)
    ensures Absorbs(Crc8Family(0x07), 0xC7, 0x39, 0xF4)
  {
  }

  /** crc8 with its default polynomial and initial value. */
  lemma Crc8Check()
    ensures Crc8Family(0x07).Crc(0x00, DIGITS) == 0xF4
  {
    hide Absorbs, Crc8Family(0x07).Crc, Crc8Family(0x07).Absorb;
    Crc8First();
    Crc8Second();
    Crc8Third();
    NineDigits(Crc8Family(0x07), 0x00,
      [0x97, 0x72, 0xC0, 0xC2, 0xCB, 0xFD, 0x78, 0xC7, 0xF4]);
  }

  lemma ModbusFirst()
    ensures Absorbs(MODBUS, 0xFFFF, 0x31, 0x947E)
    ensures Absorbs(MODBUS, 0x947E, 0x32, 0xF595)
    ensures Absorbs(MODBUS, 0xF595, 0x33, 0x7A75)
  {
  }

  lemma ModbusSecond()
    ensures Absorbs(MODBUS, 0x7A75, 0x34, 0x30BA)
    ensures Absorbs(MODBUS, 0x30BA, 0x35, 0xA471)
    ensures Absorbs(MODBUS, 0xA471, 0x36, 0x32E4)
  {
  }

  lemma ModbusThird()
    ensures Absorbs(MODBUS, 0x32E4, 0x37, 0x9D73)
    ensures Absorbs(MODBUS, 0x9D73, 0x38, 0x37DD)
    ensures Absorbs(MODBUS, 0x37DD, 0x39, 0x4B37)
  {
  }

  /** crc16_modbus with its default initial value. */
  lemma ModbusCheck()
    ensures MODBUS.Crc(0xFFFF, DIGITS) == 0x4B37
  {
    hide Absorbs, MODBUS.Crc, MODBUS.Absorb;
    ModbusFirst();
    ModbusSecond();
    ModbusThird();
    NineDigits(MODBUS, 0xFFFF,
      [0x947E, 0xF595, 0x7A75, 0x30BA, 0xA471, 0x32E4, 0x9D73, 0x37DD, 0x4B37]);
  }

  lemma CcittFirst()
    ensures Absorbs(CCITT, 0xFFFF, 0x31, 0xC782)
    ensures Absorbs(CCITT, 0xC782, 0x32, 0x3DBA)
    ensures Absorbs(CCITT, 0x3DBA, 0x33, 0x5BCE)
  {
  }

  lemma CcittSecond()
    ensures Absorbs(CCITT, 0x5BCE, 0x34, 0x5349)
    ensures Absorbs(CCITT, 0x5349, 0x35, 0x4560)
    ensures Absorbs(CCITT, 0x4560, 0x36, 0x2EF4)
  {
  }

  lemma CcittThird()
    ensures Absorbs(CCITT, 0x2EF4, 0x37, 0x7718)
    ensures Absorbs(CCITT, 0x7718, 0x38, 0xA12B)
    ensures Absorbs(CCITT, 0xA12B, 0x39, 0x29B1)
  {
  }

  /** crc16_ccitt_false with its default initial value. */
  lemma CcittCheck()
    ensures CCITT.Crc(0xFFFF, DIGITS) == 0x29B1
  {
    hide Absorbs, CCITT.Crc, CCITT.Absorb;
    CcittFirst();
    CcittSecond();
    CcittThird();
    NineDigits(CCITT, 0xFFFF,
      [0xC782, 0x3DBA, 0x5BCE, 0x5349, 0x4560, 0x2EF4, 0x7718, 0xA12B, 0x29B1]);
  }

  lemma Crc32Digit1()
    ensures Absorbs(CRC32, 0xFFFF_FFFF, 0x31, 0x7C23_1048)
  {
  }

  lemma Crc32Digit2()
    ensures Absorbs(CRC32, 0x7C23_1048, 0x32, 0xB0AC_BB32)
  {
  }

  lemma Crc32Digit3()
    ensures Absorbs(CRC32, 0xB0AC_BB32, 0x33, 0x77B7_9C2D)
  {
  }

  lemma Crc32Digit4()
    ensures Absorbs(CRC32, 0x77B7_9C2D, 0x34, 0x641C_1F5C)
  {
  }

  lemma Crc32Digit5()
    ensures Absorbs(CRC32, 0x641C_1F5C, 0x35, 0x340A_C5E3)
  {
  }

  lemma Crc32Digit6()
    ensures Absorbs(CRC32, 0x340A_C5E3, 0x36, 0xF68D_2C9E)
  {
  }

  lemma Crc32Digit7()
    ensures Absorbs(CRC32, 0xF68D_2C9E, 0x37, 0xAFFC_9660)
  {
  }

  lemma Crc32Digit8()
    ensures Absorbs(CRC32, 0xAFFC_9660, 0x38, 0x651F_2550)
  {
  }

  lemma Crc32Digit9()
    ensures Absorbs(CRC32, 0x651F_2550, 0x39, 0x340B_C6D9)
  {
  }

  /** crc32 with its default initial value, complemented at the end. */
  lemma Crc32Check()
    ensures Crc32Value(0xFFFF_FFFF, DIGITS) == 0xCBF4_3926
  {
    hide Absorbs, CRC32.Crc, CRC32.Absorb;
    Crc32Digit1();
    Crc32Digit2();
    Crc32Digit3();
    Crc32Digit4();
    Crc32Digit5();
    Crc32Digit6();
    Crc32Digit7();
    Crc32Digit8();
    Crc32Digit9();
    NineDigits(CRC32, 0xFFFF_FFFF,
      [0x7C23_1048, 0xB0AC_BB32, 0x77B7_9C2D, 0x641C_1F5C, 0x340A_C5E3,
       0xF68D_2C9E, 0xAFFC_9660, 0x651F_2550, 0x340B_C6D9]);
  }
}
