/** How the words of checksum.cpp read as bit strings. C++ computes on promoted 32-bit operands and casts back. */
module WordBits {
  import opened CrcTheory

  function Half(c: bv32): bv32 { c >> 1 }

  function Twice(c: bv32): bv32 { c << 1 }

  predicate Odd(c: bv32) { c & 1 != 0 }

  function Plus(c: bv32, d: bv32): bv32 { c ^ d }

  function Masked(c: bv32, mask: bv32): bv32 { c & mask }

  /** The n low bits, least significant first. */
  function Lsb(c: bv32, n: nat): (r: Bits)
    ensures |r| == n
  {
    if n == 0 then [] else [Odd(c)] + Lsb(Half(c), n - 1)
  }

  /** c has no bits beyond the low n. */
  predicate Fits(c: bv32, n: nat)
    decreases n
  {
    if n == 0 then c == 0 else Fits(Half(c), n - 1)
  }

  /** The mask keeps at least the low n bits. */
  predicate CoversLow(mask: bv32, n: nat)
    decreases n
  {
    n > 0 ==> Odd(mask) && CoversLow(Half(mask), n - 1)
  }

  // ------------------------------------------------------------ single steps

  lemma PlusStep(c: bv32, d: bv32)
    ensures Half(Plus(c, d)) == Plus(Half(c), Half(d))
    ensures Odd(Plus(c, d)) == (Odd(c) != Odd(d))
  {
  }

  lemma ZeroStep()
    ensures Half(0) == 0 && !Odd(0)
  {
  }

  lemma TwiceStep(c: bv32)
    requires c <= 0x7FFF_FFFF
    ensures Half(Twice(c)) == c && !Odd(Twice(c))
  {
  }

  lemma MaskStep(c: bv32, mask: bv32)
    ensures Half(Masked(c, mask)) == Masked(Half(c), Half(mask))
    ensures Odd(Masked(c, mask)) == (Odd(c) && Odd(mask))
  {
  }

  lemma HalvesAndLowBit(c: bv32, d: bv32)
    requires Half(c) == Half(d) && Odd(c) == Odd(d)
    ensures c == d
  {
  }

  lemma HalfIsMonotone(c: bv32, m: bv32)
    requires c <= m
    ensures Half(c) <= Half(m)
  {
  }

  // ------------------------------------------------------------ whole words

  lemma {:induction false} LsbOfPlus(c: bv32, d: bv32, n: nat)
    ensures Lsb(Plus(c, d), n) == Xor(Lsb(c, n), Lsb(d, n))
    decreases n
  {
    hide Half, Odd, Plus;
    if n > 0 {
      PlusStep(c, d);
      LsbOfPlus(Half(c), Half(d), n - 1);
    }
  }

  lemma {:induction false} LsbOfZero(n: nat)
    ensures Lsb(0, n) == Zeros(n)
  {
    if n > 0 {
      ZeroStep();
      LsbOfZero(n - 1);
    }
  }

  lemma {:induction false} LsbPadded(c: bv32, k: nat, n: nat)
    requires Fits(c, k)
    ensures Lsb(c, k + n) == Lsb(c, k) + Zeros(n)
    decreases k
  {
    hide Half, Odd;
    if k == 0 {
      LsbOfZero(n);
    } else {
      LsbPadded(Half(c), k - 1, n);
    }
  }

  lemma LsbOfHalf(c: bv32, n: nat)
    requires Fits(c, n) && n > 0
    ensures Lsb(Half(c), n) == Lsb(c, n)[1..] + [false]
  {
    hide Half, Odd;
    LsbPadded(Half(c), n - 1, 1);
  }

  lemma LsbOfTwice(c: bv32, n: nat)
    requires c <= 0x7FFF_FFFF && n > 0
    ensures Lsb(Twice(c), n) == [false] + Lsb(c, n - 1)
  {
    TwiceStep(c);
  }

  /** A cast to n bits keeps the low n bits. */
  lemma {:induction false} LsbOfMasked(c: bv32, mask: bv32, n: nat)
    requires CoversLow(mask, n)
    ensures Lsb(Masked(c, mask), n) == Lsb(c, n)
    decreases n
  {
    hide Half, Odd, Masked;
    if n > 0 {
      MaskStep(c, mask);
      LsbOfMasked(Half(c), Half(mask), n - 1);
    }
  }

  lemma {:induction false} LsbIsInjective(c: bv32, d: bv32, n: nat)
    requires Fits(c, n) && Fits(d, n) && Lsb(c, n) == Lsb(d, n)
    ensures c == d
    decreases n
  {
    hide Half, Odd;
    if n > 0 {
      assert Lsb(c, n)[0] == Lsb(d, n)[0] && Lsb(c, n)[1..] == Lsb(d, n)[1..];
      LsbIsInjective(Half(c), Half(d), n - 1);
      HalvesAndLowBit(c, d);
    }
  }

  lemma {:induction false} FitsBelow(c: bv32, m: bv32, n: nat)
    requires c <= m && Fits(m, n)
    ensures Fits(c, n)
    decreases n
  {
    hide Half;
    if n > 0 {
      HalfIsMonotone(c, m);
      FitsBelow(Half(c), Half(m), n - 1);
    }
  }

  function Reversed(s: Bits): (r: Bits)
    ensures |r| == |s|
  {
    seq(|s|, i requires 0 <= i < |s| => s[|s| - 1 - i])
  }

  lemma {:induction false} LsbPrefix(c: bv32, n: nat)
    requires n > 0
    ensures Lsb(c, n)[..n - 1] == Lsb(c, n - 1)
    decreases n
  {
    hide Half, Odd;
    if n > 1 {
      LsbPrefix(Half(c), n - 1);
    }
  }

  lemma ReversedShift(s: Bits)
    requires s != []
    ensures Reversed([false] + s[..|s| - 1]) == Reversed(s)[1..] + [false]
    ensures Reversed(s)[0] == s[|s| - 1]
  {
  }

  lemma ReversedXor(a: Bits, b: Bits)
    requires |a| == |b|
    ensures Reversed(Xor(a, b)) == Xor(Reversed(a), Reversed(b))
  {
  }

  /** All ones in the low n bits and nothing above. */
  predicate Filled(m: bv32, n: nat) {
    Fits(m, n) && CoversLow(m, n)
  }

  lemma OneMore(m: bv32, rest: bv32, n: nat)
    requires Odd(m) && Half(m) == rest && Filled(rest, n)
    ensures Filled(m, n + 1)
  {
  }

  lemma FourOdd(m: bv32)
    requires m & 0xF == 0xF
    ensures Odd(m) && Odd(Half(m)) && Odd(Half(Half(m))) && Odd(Half(Half(Half(m))))
    ensures Half(Half(Half(Half(m)))) == m >> 4
  {
  }

  lemma FourMore(m: bv32, n: nat)
    requires m & 0xF == 0xF && Filled(m >> 4, n)
    ensures Filled(m, n + 4)
  {
    hide Half, Odd, Filled;
    FourOdd(m);
    OneMore(Half(Half(Half(m))), m >> 4, n);
    OneMore(Half(Half(m)), Half(Half(Half(m))), n + 1);
    OneMore(Half(m), Half(Half(m)), n + 2);
    OneMore(m, Half(m), n + 3);
  }

  /** Four ones at a time, from 3 and from none. */
  lemma FullMasks()
    ensures Filled(0x7F, 7) && Filled(0xFF, 8) && Filled(0x7FFF, 15) && Filled(0xFFFF, 16)
    ensures Filled(0x7FFF_FFFF, 31) && Filled(0xFFFF_FFFF, 32)
  {
    assert Filled(0x7, 3) && Filled(0, 0);
    FourMore(0x7F, 3);
    FourMore(0x7FF, 7);
    FourMore(0x7FFF, 11);
    FourMore(0x7_FFFF, 15);
    FourMore(0x7F_FFFF, 19);
    FourMore(0x7FF_FFFF, 23);
    FourMore(0x7FFF_FFFF, 27);
    FourMore(0xF, 0);
    FourMore(0xFF, 4);
    FourMore(0xFFF, 8);
    FourMore(0xFFFF, 12);
    FourMore(0xF_FFFF, 16);
    FourMore(0xFF_FFFF, 20);
    FourMore(0xFFF_FFFF, 24);
    FourMore(0xFFFF_FFFF, 28);
  }

  lemma BoundStep(c: bv32, m: bv32)
    requires Half(c) <= Half(m) && Odd(m)
    ensures c <= m
  {
  }

  lemma {:induction false} FitsBound(c: bv32, m: bv32, n: nat)
    requires Fits(c, n) && Filled(m, n)
    ensures c <= m
    decreases n
  {
    hide Half, Odd;
    if n > 0 {
      FitsBound(Half(c), Half(m), n - 1);
      BoundStep(c, m);
    }
  }

  lemma {:induction false} ClearTop(c: bv32, n: nat)
    requires Fits(c, n + 1) && !Lsb(c, n + 1)[n]
    ensures Fits(c, n)
    decreases n
  {
    if n == 0 {
      ZeroStep();
      HalvesAndLowBit(c, 0);
    } else {
      assert Lsb(c, n + 1)[n] == Lsb(Half(c), n)[n - 1];
      ClearTop(Half(c), n - 1);
    }
  }

  /** The top bit of n + 1 is clear exactly for the words up to the filled mask of n. */
  lemma TopBit(c: bv32, low: bv32, n: nat)
    requires Fits(c, n + 1) && Filled(low, n)
    ensures Lsb(c, n + 1)[n] <==> c > low
  {
    if Lsb(c, n + 1)[n] {
      if c <= low {
        FitsBelow(c, low, n);
        LsbPadded(c, n, 1);
      }
    } else {
      ClearTop(c, n);
      FitsBound(c, low, n);
    }
  }
}

/** The four CRCs as one family: register width, polynomial and direction. */
module CrcWords {
  import opened CrcTheory
  import opened WordBits

  datatype Family = Family(width: nat, poly: bv32, reflected: bool) {
    predicate Valid() {
      width in {8, 16, 32} && InRange(poly) && (width == 32 ==> reflected)
    }

    /** The cast back to the register type. */
    function Mask(): bv32 {
      if width == 8 then 0xFF else if width == 16 then 0xFFFF else 0xFFFF_FFFF
    }

    /** A value of the register type. */
    predicate InRange(c: bv32) {
      c <= Mask()
    }

    function Top(): bv32 {
      if width == 8 then 0x80 else 0x8000
    }

    /** One pass of the inner loop. */
    function Step(c: bv32): bv32 {
      if reflected then Masked(if Odd(c) then Plus(Half(c), poly) else Half(c), Mask())
      else Masked(if c & Top() != 0 then Plus(Twice(c), poly) else Twice(c), Mask())
    }

    function Steps(c: bv32, n: nat): bv32 {
      if n == 0 then c else Step(Steps(c, n - 1))
    }

    /** Where a message byte enters the register. */
    function Enter(c: bv32, b: bv8): bv32 {
      Plus(c, Entering(b))
    }

    /** The byte as the register sees it. */
    function Entering(b: bv8): bv32 {
      if reflected || width == 8 then b as bv32 else ((b as bv32) << 8) & 0xFFFF
    }

    /** The register after one more byte. */
    function Absorb(c: bv32, b: bv8): bv32 {
      Steps(Enter(c, b), 8)
    }

    /** The register after a whole message. */
    function Crc(initial: bv32, data: seq<bv8>): bv32 {
      if data == [] then initial else Absorb(Crc(initial, data[..|data| - 1]), data[|data| - 1])
    }

    /** The register in leaving order. */
    function View(c: bv32): (r: Bits)
      ensures |r| == width
    {
      if reflected then Lsb(c, width) else Reversed(Lsb(c, width))
    }

    function Byte(b: bv8): (r: Bits)
      ensures |r| == 8
    {
      if reflected then Lsb(b as bv32, 8) else Reversed(Lsb(b as bv32, 8))
    }

    /** A message as the bit string the register sees. */
    function Stream(data: seq<bv8>): (r: Bits)
      ensures |r| == 8 * |data|
    {
      if data == [] then [] else Stream(data[..|data| - 1]) + Byte(data[|data| - 1])
    }
  }

  lemma StepIsShiftReflected(f: Family, c: bv32)
    requires f.Valid() && f.reflected && f.InRange(c)
    ensures f.View(f.Step(c)) == Shift(f.View(c), f.View(f.poly))
  {
    hide Half, Odd, Plus, Masked;
    FullMasks();
    var n, out := f.width, if Odd(c) then Plus(Half(c), f.poly) else Half(c);
    FitsBelow(c, f.Mask(), n);
    LsbOfHalf(c, n);
    LsbOfPlus(Half(c), f.poly, n);
    LsbOfMasked(out, f.Mask(), n);
  }

  lemma StepIsShiftForward(f: Family, c: bv32)
    requires f.Valid() && !f.reflected && f.InRange(c)
    ensures f.View(f.Step(c)) == Shift(f.View(c), f.View(f.poly))
  {
    var n := f.width;
    StepForward(f, c);
    hide Lsb, f.Step;
    ReversedStep(Lsb(c, n), Lsb(f.poly, n));
  }

  lemma StepForward(f: Family, c: bv32)
    requires f.Valid() && !f.reflected && f.InRange(c)
    ensures var n := f.width;
      Lsb(f.Step(c), n) == var moved := [false] + Lsb(c, n)[..n - 1];
                           if Lsb(c, n)[n - 1] then Xor(moved, Lsb(f.poly, n)) else moved
  {
    var n := f.width;
    ForwardBits(f, c);
    FullMasks();
    var out := if Lsb(c, n)[n - 1] then Plus(Twice(c), f.poly) else Twice(c);
    assert f.Step(c) == Masked(out, f.Mask());
    hide Half, Odd, Plus, Masked, Twice, Lsb, f.Step;
    LsbOfMasked(out, f.Mask(), n);
    LsbOfPlus(Twice(c), f.poly, n);
  }

  lemma ReversedStep(bits: Bits, poly: Bits)
    requires 0 < |bits| == |poly|
    ensures var moved := [false] + bits[..|bits| - 1];
      Reversed(if bits[|bits| - 1] then Xor(moved, poly) else moved) == Shift(Reversed(bits), Reversed(poly))
  {
    ReversedShift(bits);
    ReversedXor([false] + bits[..|bits| - 1], poly);
  }

  /** The bit that leaves is the top one; the others move up. */
  lemma ForwardBits(f: Family, c: bv32)
    requires f.width in {8, 16} && f.InRange(c)
    ensures c & f.Top() != 0 <==> Lsb(c, f.width)[f.width - 1]
    ensures Lsb(Twice(c), f.width) == [false] + Lsb(c, f.width)[..f.width - 1]
  {
    hide Half, Odd, Twice;
    FullMasks();
    FitsBelow(c, f.Mask(), f.width);
    TopTest(f, c);
    TopBit(c, if f.width == 8 then 0x7F else 0x7FFF, f.width - 1);
    LsbOfTwice(c, f.width);
    LsbPrefix(c, f.width);
  }

  lemma TopTest(f: Family, c: bv32)
    requires f.width in {8, 16} && f.InRange(c)
    ensures c & f.Top() != 0 <==> c > if f.width == 8 then 0x7F else 0x7FFF
  {
  }

  lemma StepFits(f: Family, c: bv32)
    requires f.Valid() && f.InRange(c)
    ensures f.InRange(f.Step(c))
    ensures f.View(f.Step(c)) == Shift(f.View(c), f.View(f.poly))
  {
    if f.reflected {
      StepIsShiftReflected(f, c);
    } else {
      StepIsShiftForward(f, c);
    }
  }

  lemma {:induction false} StepsAreShifts(f: Family, c: bv32, n: nat)
    requires f.Valid() && f.InRange(c)
    ensures f.InRange(f.Steps(c, n))
    ensures f.View(f.Steps(c, n)) == Shifts(f.View(c), f.View(f.poly), n)
  {
    if n > 0 {
      StepsAreShifts(f, c, n - 1);
      StepFits(f, f.Steps(c, n - 1));
      ShiftsFromTheEnd(f.View(c), f.View(f.poly), n);
    }
  }

  lemma ByteFits(b: bv8)
    ensures (b as bv32) <= 0xFF && ((b as bv32) << 8) & 0xFFFF <= 0xFFFF
    ensures Fits(b as bv32, 8)
  {
    FullMasks();
    FitsBelow(b as bv32, 0xFF, 8);
  }

  lemma UpOne(w: bv32, k: nat, low: Bits)
    requires w <= 0x7FFF_FFFF && Lsb(w, k + |low|) == Zeros(k) + low
    ensures Lsb(Twice(w), k + 1 + |low|) == Zeros(k + 1) + low
  {
    LsbOfTwice(w, k + 1 + |low|);
    hide Twice, Lsb;
    assert [false] + (Zeros(k) + low) == Zeros(k + 1) + low;
  }

  lemma UpTwo(w: bv32, k: nat, low: Bits)
    requires w <= 0x7FFF_FFFF && Twice(w) <= 0x7FFF_FFFF && Lsb(w, k + |low|) == Zeros(k) + low
    ensures Lsb(Twice(Twice(w)), k + 2 + |low|) == Zeros(k + 2) + low
  {
    hide *;
    UpOne(w, k, low);
    UpOne(Twice(w), k + 1, low);
  }

  /** Eight doublings make room for a byte. */
  lemma ByteUp(w: bv32, n: nat)
    requires w <= 0xFF_FFFF
    ensures Lsb(w << 8, 8 + n) == Zeros(8) + Lsb(w, n)
  {
    hide *;
    EightTwices(w);
    var low := Lsb(w, n);
    UpNone(low);
    var w2 := Twice(Twice(w));
    var w4 := Twice(Twice(w2));
    var w6 := Twice(Twice(w4));
    UpTwo(w, 0, low);
    UpTwo(w2, 2, low);
    UpTwo(w4, 4, low);
    UpTwo(w6, 6, low);
  }

  lemma UpNone(low: Bits)
    ensures Zeros(0) + low == low
  {
  }

  lemma EightTwices(w: bv32)
    requires w <= 0xFF_FFFF
    ensures var w1 := Twice(w); var w2 := Twice(w1); var w3 := Twice(w2); var w4 := Twice(w3);
            var w5 := Twice(w4); var w6 := Twice(w5); var w7 := Twice(w6);
      && w1 <= 0x7FFF_FFFF && w2 <= 0x7FFF_FFFF && w3 <= 0x7FFF_FFFF && w4 <= 0x7FFF_FFFF
      && w5 <= 0x7FFF_FFFF && w6 <= 0x7FFF_FFFF && w7 <= 0x7FFF_FFFF
      && w << 8 == Twice(w7)
  {
  }

  lemma CastKeepsByte(w: bv32)
    requires w <= 0xFF
    ensures (w << 8) & 0xFFFF == w << 8
  {
  }

  lemma EnteringFits(f: Family, b: bv8)
    requires f.Valid()
    ensures f.InRange(f.Entering(b))
  {
    ByteFits(b);
  }

  lemma EnteringBits(f: Family, b: bv8)
    requires f.Valid()
    ensures Lsb(f.Entering(b), f.width)
         == if f.reflected then Lsb(b as bv32, 8) + Zeros(f.width - 8) else Zeros(f.width - 8) + Lsb(b as bv32, 8)
  {
    ByteFits(b);
    if f.reflected {
      LsbPadded(b as bv32, 8, f.width - 8);
    } else if f.width == 16 {
      CastKeepsByte(b as bv32);
      ByteUp(b as bv32, 8);
    }
  }

  /** Adding a padded byte to the whole register is adding the byte at the leaving end. */
  lemma AddPadded(r: Bits, byte: Bits)
    requires |byte| == 8 <= |r|
    ensures Xor(r, byte + Zeros(|r| - 8)) == Add(r, byte)
    ensures Reversed(Xor(r, Zeros(|r| - 8) + byte)) == Add(Reversed(r), Reversed(byte))
  {
    var n := |r|;
    var mixed := Xor(r, Zeros(n - 8) + byte);
    forall k | 0 <= k < n
      ensures Reversed(mixed)[k] == Add(Reversed(r), Reversed(byte))[k]
    {
      assert Reversed(mixed)[k] == mixed[n - 1 - k];
    }
  }

  lemma EnterFits(f: Family, c: bv32, b: bv8)
    requires f.Valid() && f.InRange(c)
    ensures f.InRange(f.Enter(c, b))
  {
    EnteringFits(f, b);
    PlusFits(f, c, f.Entering(b));
  }

  lemma EnterIsAdd(f: Family, c: bv32, b: bv8)
    requires f.Valid()
    ensures f.View(f.Enter(c, b)) == Add(f.View(c), f.Byte(b))
  {
    hide Lsb, Plus, f.Entering, Add, Xor, Reversed, Zeros;
    LsbOfPlus(c, f.Entering(b), f.width);
    EnteringBits(f, b);
    AddPadded(Lsb(c, f.width), Lsb(b as bv32, 8));
  }

  lemma PlusFits(f: Family, c: bv32, d: bv32)
    requires f.Valid() && f.InRange(c) && f.InRange(d)
    ensures f.InRange(Plus(c, d))
  {
    hide Plus;
    if f.width == 8 {
      XorFitsByte(c, d);
    } else if f.width == 16 {
      XorFitsWord(c, d);
    }
  }

  lemma XorFitsByte(c: bv32, d: bv32)
    requires c <= 0xFF && d <= 0xFF
    ensures Plus(c, d) <= 0xFF
  {
  }

  lemma XorFitsWord(c: bv32, d: bv32)
    requires c <= 0xFFFF && d <= 0xFFFF
    ensures Plus(c, d) <= 0xFFFF
  {
  }

  /** Eight steps on a register e that the byte has entered. */
  lemma EnteredIsClocked(f: Family, e: bv32, r: Bits, byte: Bits, n: nat)
    requires f.Valid() && f.InRange(e) && |byte| == n == 8 && |r| == f.width
    requires f.View(e) == Add(r, byte)
    ensures f.InRange(f.Steps(e, n))
    ensures f.View(f.Steps(e, n)) == Clock(r, byte, f.View(f.poly))
  {
    hide *;
    NothingClocked(f, e);
    WidthIsBytes(f);
    StepsAreShifts(f, e, n);
    ShiftsAreClock(r, byte, f.View(f.poly));
  }

  lemma AbsorbIsSteps(f: Family, c: bv32, b: bv8, e: bv32, n: nat)
    requires e == f.Enter(c, b) && n == 8
    ensures f.Absorb(c, b) == f.Steps(e, n)
  {
  }

  lemma ByteIsClocked(f: Family, c: bv32, b: bv8, c': bv32)
    requires f.Valid() && f.InRange(c) && c' == f.Absorb(c, b)
    ensures f.InRange(c')
    ensures f.View(c') == Clock(f.View(c), f.Byte(b), f.View(f.poly))
  {
    hide *;
    var e, n := f.Enter(c, b), |f.Byte(b)|;
    WidthIsBytes(f);
    EnterFits(f, c, b);
    EnterIsAdd(f, c, b);
    EnteredIsClocked(f, e, f.View(c), f.Byte(b), n);
    AbsorbIsSteps(f, c, b, e, n);
  }

  lemma WidthIsBytes(f: Family)
    requires f.Valid()
    ensures 8 <= f.width
  {
  }

  lemma NothingClocked(f: Family, initial: bv32)
    requires f.Valid()
    ensures f.Crc(initial, []) == initial && Clock(f.View(initial), f.Stream([]), f.View(f.poly)) == f.View(initial)
    ensures |f.View(f.poly)| == f.width > 0
  {
  }

  /** The last byte comes after the others, in the register and in the stream. */
  lemma LastByte(f: Family, initial: bv32, data: seq<bv8>)
    requires f.Valid() && data != []
    ensures var front, b := data[..|data| - 1], data[|data| - 1];
            && f.Crc(initial, data) == f.Absorb(f.Crc(initial, front), b)
            && f.Stream(data) == f.Stream(front) + f.Byte(b)
    ensures |f.View(f.poly)| == f.width > 0
  {
    hide f.Absorb, f.Byte;
  }

  lemma OneMoreByte(f: Family, initial: bv32, data: seq<bv8>, before: bv32, after: bv32)
    requires f.Valid() && data != []
    requires before == f.Crc(initial, data[..|data| - 1]) && after == f.Crc(initial, data)
    requires f.InRange(before)
    requires f.View(before) == Clock(f.View(initial), f.Stream(data[..|data| - 1]), f.View(f.poly))
    ensures f.InRange(after) && f.View(after) == Clock(f.View(initial), f.Stream(data), f.View(f.poly))
  {
    hide *;
    var b := data[|data| - 1];
    LastByte(f, initial, data);
    ByteIsClocked(f, before, b, after);
    ClockConcat(f.View(initial), f.Stream(data[..|data| - 1]), f.Byte(b), f.View(f.poly));
  }

  /** The byte-wise computation is the bit-serial machine on the message's bit string. */
  lemma {:induction false} CrcIsClock(f: Family, initial: bv32, data: seq<bv8>)
    requires f.Valid() && f.InRange(initial)
    ensures f.InRange(f.Crc(initial, data))
    ensures f.View(f.Crc(initial, data)) == Clock(f.View(initial), f.Stream(data), f.View(f.poly))
  {
    hide *;
    if data == [] {
      NothingClocked(f, initial);
    } else {
      CrcIsClock(f, initial, data[..|data| - 1]);
      OneMoreByte(f, initial, data, f.Crc(initial, data[..|data| - 1]), f.Crc(initial, data));
    }
  }

  // ------------------------------------------------------------ messages as bit strings

  lemma StreamThen(f: Family, a: seq<bv8>, b: bv8)
    ensures f.Stream([]) == [] && f.Stream(a + [b]) == f.Stream(a) + f.Byte(b)
  {
    hide f.Byte;
    assert (a + [b])[..|a|] == a;
  }

  lemma {:induction false} StreamConcat(f: Family, a: seq<bv8>, b: seq<bv8>)
    ensures f.Stream(a + b) == f.Stream(a) + f.Stream(b)
  {
    hide *;
    if b == [] {
      StreamThen(f, a, 0);
      assert a + b == a;
    } else {
      var front, last := b[..|b| - 1], b[|b| - 1];
      StreamConcat(f, a, front);
      StreamThen(f, a + front, last);
      StreamThen(f, front, last);
      Associated(a, front, [last]);
      Associated(f.Stream(a), f.Stream(front), f.Byte(last));
      assert front + [last] == b;
    }
  }

  lemma Associated<T>(a: seq<T>, b: seq<T>, c: seq<T>)
    ensures (a + b) + c == a + (b + c)
  {
  }

  lemma ReversedIsInjective(a: Bits, b: Bits)
    requires Reversed(a) == Reversed(b)
    ensures a == b
  {
    assert |a| == |Reversed(a)| == |b|;
    forall k | 0 <= k < |a| ensures a[k] == b[k] {
      assert Reversed(a)[|a| - 1 - k] == Reversed(b)[|a| - 1 - k];
    }
  }

  lemma ByteIsInjective(f: Family, a: bv8, b: bv8)
    requires f.Byte(a) == f.Byte(b)
    ensures a == b
  {
    hide Lsb, Reversed;
    ByteFits(a);
    ByteFits(b);
    if !f.reflected {
      ReversedIsInjective(Lsb(a as bv32, 8), Lsb(b as bv32, 8));
    }
    LsbIsInjective(a as bv32, b as bv32, 8);
  }

  lemma SplitLast(a: Bits, b: Bits, c: Bits, d: Bits)
    requires |a| == |b| && a + c == b + d
    ensures a == b && c == d
  {
    assert a == (a + c)[..|a|] && b == (b + d)[..|b|];
    assert c == (a + c)[|a|..] && d == (b + d)[|b|..];
  }

  lemma {:induction false} StreamIsInjective(f: Family, a: seq<bv8>, b: seq<bv8>)
    requires |a| == |b| && f.Stream(a) == f.Stream(b)
    ensures a == b
  {
    hide f.Byte;
    if a != [] {
      var n := |a| - 1;
      SplitLast(f.Stream(a[..n]), f.Stream(b[..n]), f.Byte(a[n]), f.Byte(b[n]));
      StreamIsInjective(f, a[..n], b[..n]);
      ByteIsInjective(f, a[n], b[n]);
      assert a == a[..n] + [a[n]] && b == b[..n] + [b[n]];
    }
  }

  lemma ViewIsInjective(f: Family, c: bv32, d: bv32)
    requires f.Valid() && f.InRange(c) && f.InRange(d)
    ensures f.View(c) == f.View(d) <==> c == d
  {
    FullMasks();
    FitsBelow(c, f.Mask(), f.width);
    FitsBelow(d, f.Mask(), f.width);
    if f.View(c) == f.View(d) {
      if !f.reflected {
        ReversedIsInjective(Lsb(c, f.width), Lsb(d, f.width));
      }
      LsbIsInjective(c, d, f.width);
    }
  }

  /** The polynomial's last bit in leaving order is set, so a shift loses nothing. */
  predicate ProperFamily(f: Family) {
    f.Valid() && Proper(f.View(f.poly))
  }

  /**
   Burst detection: two messages of one length whose bit strings differ, but only inside a
   window no wider than the register, have different CRCs, wherever the window lies.
   */
  lemma BurstChangesCrc(f: Family, initial: bv32, a: seq<bv8>, b: seq<bv8>, from: nat)
    requires ProperFamily(f) && f.InRange(initial) && |a| == |b| && a != b
    requires forall i | 0 <= i < 8 * |a| :: f.Stream(a)[i] != f.Stream(b)[i] ==> from <= i < from + f.width
    ensures f.Crc(initial, a) != f.Crc(initial, b)
  {
    hide f.Stream, f.View, f.Crc, Clock;
    if f.Stream(a) == f.Stream(b) {
      StreamIsInjective(f, a, b);
    }
    WindowIsDetected(f.View(initial), f.Stream(a), f.Stream(b), from, f.View(f.poly));
    CrcIsClock(f, initial, a);
    CrcIsClock(f, initial, b);
  }

  /** In bytes: one for crc8, two for the 16-bit CRCs, four for crc32. */
  lemma ByteBurstChangesCrc(f: Family, initial: bv32, before: seq<bv8>, x: seq<bv8>, y: seq<bv8>, after: seq<bv8>)
    requires ProperFamily(f) && f.InRange(initial)
    requires x != y && |x| == |y| && 8 * |x| <= f.width
    ensures f.Crc(initial, before + x + after) != f.Crc(initial, before + y + after)
  {
    hide *;
    StreamConcat(f, before + x, after);
    StreamConcat(f, before + y, after);
    StreamConcat(f, before, x);
    StreamConcat(f, before, y);
    OnlyTheMiddleDiffers(f.Stream(before), f.Stream(x), f.Stream(y), f.Stream(after));
    MiddleMatters(before, x, y, after);
    BurstChangesCrc(f, initial, before + x + after, before + y + after, 8 * |before|);
  }

  lemma MiddleMatters(before: seq<bv8>, x: seq<bv8>, y: seq<bv8>, after: seq<bv8>)
    requires |x| == |y| && x != y
    ensures before + x + after != before + y + after
  {
    var k :| 0 <= k < |x| && x[k] != y[k];
    assert (before + x + after)[|before| + k] != (before + y + after)[|before| + k];
  }

  lemma OnlyTheMiddleDiffers(before: Bits, x: Bits, y: Bits, after: Bits)
    requires |x| == |y|
    ensures var s, t := before + x + after, before + y + after;
      forall i | 0 <= i < |s| :: s[i] != t[i] ==> |before| <= i < |before| + |x|
  {
  }

  /** A trailer of register width brings the register to zero exactly when it spells the register out. */
  lemma TrailerCheck(f: Family, initial: bv32, data: seq<bv8>, trailer: seq<bv8>, word: bv32)
    requires ProperFamily(f) && f.InRange(initial) && f.InRange(word)
    requires f.Stream(trailer) == f.View(word)
    ensures f.Crc(initial, data + trailer) == 0 <==> f.Crc(initial, data) == word
  {
    hide f.Stream, f.View, f.Crc, Clock, Lsb;
    var c := f.Crc(initial, data);
    CrcIsClock(f, initial, data);
    CrcIsClock(f, initial, data + trailer);
    StreamConcat(f, data, trailer);
    ClockConcat(f.View(initial), f.Stream(data), f.Stream(trailer), f.View(f.poly));
    ResidueIsExact(f.View(c), f.View(word), f.View(f.poly));
    ViewOfZero(f);
    ViewIsInjective(f, f.Crc(initial, data + trailer), 0);
    ViewIsInjective(f, c, word);
  }

  lemma ViewOfZero(f: Family)
    ensures f.View(0) == Zeros(f.width)
  {
    LsbOfZero(f.width);
    assert Reversed(Zeros(f.width)) == Zeros(f.width);
  }

  /** A word whose low byte is b and whose other bits are those of rest. */
  function Join(b: bv8, rest: bv32): bv32 {
    (b as bv32) | (rest << 8)
  }

  lemma JoinBits(b: bv8, rest: bv32, n: nat)
    requires rest <= 0xFF_FFFF
    ensures Lsb(Join(b, rest), 8 + n) == Lsb(b as bv32, 8) + Lsb(rest, n)
  {
    ByteFits(b);
    JoinIsPlus(b, rest);
    hide Lsb, Join, Plus, Xor, Zeros;
    LsbOfPlus(b as bv32, rest << 8, 8 + n);
    LsbPadded(b as bv32, 8, n);
    ByteUp(rest, n);
    XorApart(Lsb(b as bv32, 8), Lsb(rest, n));
  }

  lemma XorApart(a: Bits, b: Bits)
    ensures Xor(a + Zeros(|b|), Zeros(|a|) + b) == a + b
  {
  }

  lemma JoinIsPlus(b: bv8, rest: bv32)
    requires rest <= 0xFF_FFFF
    ensures Join(b, rest) == Plus(b as bv32, rest << 8)
  {
  }

  lemma StreamOfTwo(f: Family, a: bv8, b: bv8)
    ensures f.Stream([a, b]) == f.Byte(a) + f.Byte(b)
  {
    hide f.Byte;
    assert [a, b][..1] == [a] && [a][..0] == [];
    assert f.Stream([a]) == f.Byte(a);
  }

  lemma ReversedConcat(a: Bits, b: Bits)
    ensures Reversed(a + b) == Reversed(b) + Reversed(a)
  {
  }

  /** The shared residue of a machine that complements its trailer. */
  lemma ComplementedTrailer(s: Bits, t: Bits, ones: Bits, poly: Bits)
    requires |s| == |t| == |ones| == |poly| && Proper(poly)
    ensures Clock(s, t, poly) == Clock(Zeros(|poly|), ones, poly) <==> t == Xor(s, ones)
  {
    var zero, mixed := Zeros(|poly|), Xor(s, ones);
    XorZero(s);
    XorZero(Clock(zero, ones, poly));
    RegisterClears(s, poly);
    hide Clock, Xor, Proper;
    ClockIsLinear(s, zero, s, ones, poly);
    if Clock(s, t, poly) == Clock(zero, ones, poly) {
      ChunksDecide(s, s, t, mixed, poly);
    }
  }

  lemma XorZero(s: Bits)
    ensures Xor(s, Zeros(|s|)) == s && Xor(Zeros(|s|), s) == s
  {
  }
}
