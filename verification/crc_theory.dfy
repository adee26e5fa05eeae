/**
 Shift-register checksums on bit strings, for a register of any width and any polynomial.

 Registers are listed in the order in which their bits leave: from the least significant
 end for the reflected CRCs, from the most significant end for the others. With that
 convention all four CRCs of checksum.cpp are the same machine.
 */
module CrcTheory {
  type Bits = seq<bool>

  function Zeros(n: nat): (r: Bits)
    ensures |r| == n
  {
    seq(n, _ => false)
  }

  function Xor(a: Bits, b: Bits): (r: Bits)
    requires |a| == |b|
    ensures |r| == |a|
  {
    seq(|a|, i requires 0 <= i < |a| => a[i] != b[i])
  }

  /** One shift: the leaving bit decides whether the polynomial is added. */
  function Shift(r: Bits, poly: Bits): (r': Bits)
    requires 0 < |r| == |poly|
    ensures |r'| == |r|
  {
    var moved := r[1..] + [false];
    if r[0] then Xor(moved, poly) else moved
  }

  function Shifts(r: Bits, poly: Bits, n: nat): (r': Bits)
    requires 0 < |r| == |poly|
    ensures |r'| == |r|
    decreases n
  {
    if n == 0 then r else Shifts(Shift(r, poly), poly, n - 1)
  }

  /** The code's way with a byte: add it to the leaving end of the register, then shift once a bit. */
  function Add(r: Bits, bits: Bits): (r': Bits)
    requires |bits| <= |r|
    ensures |r'| == |r|
  {
    Xor(r[..|bits|], bits) + r[|bits|..]
  }

  /** The reference: clock the message in bit by bit. */
  function Clock(r: Bits, bits: Bits, poly: Bits): (r': Bits)
    requires 0 < |r| == |poly|
    ensures |r'| == |r|
    decreases |bits|
  {
    if bits == [] then r else Clock(Shift(Add(r, bits[..1]), poly), bits[1..], poly)
  }

  lemma {:induction false} ShiftsFromTheEnd(r: Bits, poly: Bits, n: nat)
    requires 0 < |r| == |poly| && n > 0
    ensures Shifts(r, poly, n) == Shift(Shifts(r, poly, n - 1), poly)
    decreases n
  {
    if n > 1 {
      ShiftsFromTheEnd(Shift(r, poly), poly, n - 1);
    }
  }

  lemma AddAt(r: Bits, bits: Bits, k: nat)
    requires |bits| <= |r| && k < |r|
    ensures Add(r, bits)[k] == (r[k] != (k < |bits| && bits[k]))
  {
  }

  lemma ShiftAt(r: Bits, poly: Bits, k: nat)
    requires k < |r| == |poly|
    ensures Shift(r, poly)[k] == ((k + 1 < |r| && r[k + 1]) != (r[0] && poly[k]))
  {
  }

  lemma AddOneThenRest(r: Bits, bits: Bits, poly: Bits)
    requires 0 < |bits| <= |r| == |poly|
    ensures Shift(Add(r, bits), poly) == Add(Shift(Add(r, bits[..1]), poly), bits[1..])
  {
    hide *;
    var whole, one := Add(r, bits), Add(r, bits[..1]);
    AddAt(r, bits, 0);
    AddAt(r, bits[..1], 0);
    forall k | 0 <= k < |r|
      ensures Shift(whole, poly)[k] == Add(Shift(one, poly), bits[1..])[k]
    {
      ShiftAt(whole, poly, k);
      ShiftAt(one, poly, k);
      AddAt(Shift(one, poly), bits[1..], k);
      if k + 1 < |r| {
        AddAt(r, bits, k + 1);
        AddAt(r, bits[..1], k + 1);
      }
    }
  }

  lemma NothingAdded(r: Bits)
    ensures Add(r, []) == r
  {
  }

  /** Adding a byte and shifting is clocking its bits, for any chunk no longer than the register. */
  lemma {:induction false} ShiftsAreClock(r: Bits, bits: Bits, poly: Bits)
    requires 0 < |r| == |poly| && |bits| <= |r|
    ensures Shifts(Add(r, bits), poly, |bits|) == Clock(r, bits, poly)
    decreases |bits|
  {
    hide Add, Shift;
    if bits == [] {
      NothingAdded(r);
    } else {
      AddOneThenRest(r, bits, poly);
      ShiftsAreClock(Shift(Add(r, bits[..1]), poly), bits[1..], poly);
    }
  }

  lemma {:induction false} ClockConcat(r: Bits, a: Bits, b: Bits, poly: Bits)
    requires 0 < |r| == |poly|
    ensures Clock(r, a + b, poly) == Clock(Clock(r, a, poly), b, poly)
    decreases |a|
  {
    if a == [] {
      assert a + b == b;
    } else {
      assert (a + b)[..1] == a[..1] && (a + b)[1..] == a[1..] + b;
      ClockConcat(Shift(Add(r, a[..1]), poly), a[1..], b, poly);
    }
  }

  /** A polynomial whose last bit is set; for these the shift loses nothing. */
  predicate Proper(poly: Bits) {
    poly != [] && poly[|poly| - 1]
  }

  lemma ShiftDecides(u: Bits, v: Bits, poly: Bits, n: nat)
    requires |u| == |v| == |poly| && Proper(poly) && 1 <= n <= |poly|
    requires Shift(u, poly)[n - 1..] == Shift(v, poly)[n - 1..]
    ensures u[0] == v[0] && u[n..] == v[n..]
  {
    var w := |poly| - 1;
    var su, sv := Shift(u, poly), Shift(v, poly);
    hide Shift;
    assert su[w] == su[n - 1..][w - (n - 1)] == sv[w];
    ShiftAt(u, poly, w);
    ShiftAt(v, poly, w);
    forall k | n <= k <= w ensures u[k] == v[k] {
      assert su[k - 1] == su[n - 1..][k - n] == sv[k - 1];
      ShiftAt(u, poly, k - 1);
      ShiftAt(v, poly, k - 1);
    }
  }

  /** The shift is a bijection exactly when the polynomial is proper. */
  lemma ShiftIsInjective(poly: Bits)
    requires poly != []
    ensures Proper(poly) <==>
            forall u: Bits, v: Bits | |u| == |poly| && |v| == |poly| && Shift(u, poly) == Shift(v, poly) :: u == v
  {
    if Proper(poly) {
      forall u: Bits, v: Bits | |u| == |poly| && |v| == |poly| && Shift(u, poly) == Shift(v, poly)
        ensures u == v
      {
        ShiftDecides(u, v, poly, 1);
        assert u == u[..1] + u[1..] && v == v[..1] + v[1..];
      }
    } else {
      var u, v := Blind(poly), Zeros(|poly|);
      BlindVanishes(poly);
      assert Shift(v, poly) == Zeros(|poly|);
      assert u[0] != v[0];
    }
  }

  /** A non-zero register that an improper polynomial shifts to zero. */
  function Blind(poly: Bits): (r: Bits)
    requires poly != []
    ensures |r| == |poly|
  {
    [true] + poly[..|poly| - 1]
  }

  lemma BlindVanishes(poly: Bits)
    requires poly != [] && !Proper(poly)
    ensures Shift(Blind(poly), poly) == Zeros(|poly|)
  {
    assert Blind(poly)[1..] + [false] == poly;
  }

  lemma {:induction false} ShiftsOfZero(poly: Bits, n: nat)
    requires poly != []
    ensures Shifts(Zeros(|poly|), poly, n) == Zeros(|poly|)
  {
    if n > 0 {
      assert Shift(Zeros(|poly|), poly) == Zeros(|poly|);
      ShiftsOfZero(poly, n - 1);
    }
  }

  /** Different registers stay different whatever follows. */
  lemma {:induction false} ClockIsInjective(r: Bits, s: Bits, bits: Bits, poly: Bits)
    requires |r| == |s| == |poly| && Proper(poly)
    requires Clock(r, bits, poly) == Clock(s, bits, poly)
    ensures r == s
    decreases |bits|
  {
    if bits != [] {
      var u, v := Add(r, bits[..1]), Add(s, bits[..1]);
      ClockIsInjective(Shift(u, poly), Shift(v, poly), bits[1..], poly);
      ShiftDecides(u, v, poly, 1);
      assert forall k | 0 <= k < |r| :: (r[k] == s[k] <==> u[k] == v[k]);
    }
  }

  lemma FirstBitDecides(r: Bits, s: Bits, x: Bits, y: Bits, n: nat)
    requires 1 <= n <= |r| == |s| && |x| == |y| == 1
    requires Add(r, x)[0] == Add(s, y)[0] && Add(r, x)[n..] == Add(s, y)[n..]
    ensures r[n..] == s[n..]
    ensures r == s ==> x == y
  {
    assert Add(r, x)[n..] == r[n..] && Add(s, y)[n..] == s[n..];
    assert Add(r, x)[0] == (r[0] != x[0]) && Add(s, y)[0] == (s[0] != y[0]);
  }

  /**
   Two registers that meet after chunks no longer than the register already agreed
   beyond the chunk length; if they started equal, the chunks are equal.
   */
  lemma {:induction false} ChunksDecide(r: Bits, s: Bits, x: Bits, y: Bits, poly: Bits)
    requires |r| == |s| == |poly| && Proper(poly) && |x| == |y| <= |poly|
    requires Clock(r, x, poly) == Clock(s, y, poly)
    ensures r[|x|..] == s[|x|..]
    ensures r == s ==> x == y
    decreases |x|
  {
    hide *;
    ProperIsLong(poly);
    if x == [] {
      NothingDecided(r, s, poly);
    } else {
      var u, v := Add(r, x[..1]), Add(s, y[..1]);
      FirstClocked(r, x, poly);
      FirstClocked(s, y, poly);
      ChunksDecide(Shift(u, poly), Shift(v, poly), x[1..], y[1..], poly);
      ShiftDecides(u, v, poly, |x|);
      FirstBitDecides(r, s, x[..1], y[..1], |x|);
      FirstAndRest(x, y);
    }
  }

  lemma ProperIsLong(poly: Bits)
    requires Proper(poly)
    ensures poly != []
  {
  }

  lemma NothingDecided(r: Bits, s: Bits, poly: Bits)
    requires poly != [] && |r| == |s| == |poly| && Clock(r, [], poly) == Clock(s, [], poly)
    ensures r == s
  {
  }

  lemma FirstClocked(r: Bits, x: Bits, poly: Bits)
    requires 0 < |r| == |poly| && x != []
    ensures Clock(r, x, poly) == Clock(Shift(Add(r, x[..1]), poly), x[1..], poly)
  {
  }

  lemma FirstAndRest(x: Bits, y: Bits)
    requires x != [] && y != []
    ensures x[..1] == y[..1] && x[1..] == y[1..] ==> x == y
  {
    assert x == x[..1] + x[1..] && y == y[..1] + y[1..];
  }

  /** Any error burst no wider than the register changes the checksum, whatever surrounds it. */
  lemma BurstIsDetected(r: Bits, before: Bits, x: Bits, y: Bits, after: Bits, poly: Bits)
    requires |r| == |poly| && Proper(poly) && |x| == |y| <= |poly| && x != y
    ensures Clock(r, before + x + after, poly) != Clock(r, before + y + after, poly)
  {
    var m := Clock(r, before, poly);
    ClockConcat(r, before + x, after, poly);
    ClockConcat(r, before + y, after, poly);
    ClockConcat(r, before, x, poly);
    ClockConcat(r, before, y, poly);
    if Clock(r, before + x + after, poly) == Clock(r, before + y + after, poly) {
      ClockIsInjective(Clock(m, x, poly), Clock(m, y, poly), after, poly);
      ChunksDecide(m, m, x, y, poly);
    }
  }

  /** The same for two equally long bit strings that differ, but only inside a window of register width. */
  lemma WindowIsDetected(r: Bits, s: Bits, t: Bits, from: nat, poly: Bits)
    requires |r| == |poly| && Proper(poly) && |s| == |t| && s != t
    requires forall i | 0 <= i < |s| :: s[i] != t[i] ==> from <= i < from + |poly|
    ensures Clock(r, s, poly) != Clock(r, t, poly)
  {
    var to := if from + |poly| <= |s| then from + |poly| else |s|;
    CutWindow(s, t, from, to);
    hide Clock, Proper;
    BurstIsDetected(r, s[..from], s[from..to], t[from..to], s[to..], poly);
  }

  lemma CutWindow(s: Bits, t: Bits, from: nat, to: nat)
    requires |s| == |t| && s != t && to <= |s|
    requires forall i | 0 <= i < |s| :: s[i] != t[i] ==> from <= i < to
    ensures from <= to && s[from..to] != t[from..to]
    ensures s == s[..from] + s[from..to] + s[to..]
    ensures t == s[..from] + t[from..to] + s[to..]
  {
    var k :| 0 <= k < |s| && s[k] != t[k];
    assert s[from..to][k - from] != t[from..to][k - from];
    assert s[..from] == t[..from] && s[to..] == t[to..];
    Cut(s, from, to);
    Cut(t, from, to);
  }

  lemma Cut(s: Bits, from: nat, to: nat)
    requires from <= to <= |s|
    ensures s == s[..from] + s[from..to] + s[to..]
  {
  }

  /** One bit wider and it need not: the polynomial itself is invisible to a zero register. */
  lemma WiderBurstCanHide(poly: Bits)
    requires poly != []
    ensures var zero := Zeros(|poly|);
      Clock(zero, [true] + poly, poly) == Clock(zero, Zeros(|poly| + 1), poly) == zero
  {
    var zero := Zeros(|poly|);
    LoadBit(poly);
    FirstClock(zero, true, poly, poly);
    RegisterClears(poly, poly);
    FirstClock(zero, false, zero, poly);
    RegisterClears(zero, poly);
  }

  lemma LoadBit(poly: Bits)
    requires poly != []
    ensures Shift(Add(Zeros(|poly|), [true]), poly) == poly
    ensures Shift(Add(Zeros(|poly|), [false]), poly) == Zeros(|poly|)
    ensures [false] + Zeros(|poly|) == Zeros(|poly| + 1)
  {
  }

  lemma FirstClock(r: Bits, bit: bool, rest: Bits, poly: Bits)
    requires 0 < |r| == |poly|
    ensures Clock(r, [bit] + rest, poly) == Clock(Shift(Add(r, [bit]), poly), rest, poly)
  {
    assert ([bit] + rest)[..1] == [bit] && ([bit] + rest)[1..] == rest;
  }

  /** Clocking in the register's own bits, up to its last set one, clears it. */
  lemma {:induction false} OwnBitsClear(r: Bits, bits: Bits, poly: Bits)
    requires 0 < |r| == |poly| && |bits| <= |r|
    requires r == bits + Zeros(|r| - |bits|)
    ensures Clock(r, bits, poly) == Zeros(|r|)
    decreases |bits|
  {
    if bits != [] {
      var next := Shift(Add(r, bits[..1]), poly);
      assert next == bits[1..] + Zeros(|r| - |bits| + 1);
      OwnBitsClear(next, bits[1..], poly);
    }
  }

  lemma RegisterClears(r: Bits, poly: Bits)
    requires 0 < |r| == |poly|
    ensures Clock(r, r, poly) == Zeros(|r|)
  {
    assert r == r + Zeros(0);
    OwnBitsClear(r, r, poly);
  }

  /** The receiver's check: after a message, only the register's own content, as a trailer, leads to zero. */
  lemma ResidueIsExact(r: Bits, trailer: Bits, poly: Bits)
    requires |r| == |trailer| == |poly| && Proper(poly)
    ensures Clock(r, trailer, poly) == Zeros(|r|) <==> trailer == r
  {
    RegisterClears(r, poly);
    if Clock(r, trailer, poly) == Zeros(|r|) {
      ChunksDecide(r, r, trailer, r, poly);
    }
  }

  lemma XorSlices(a: Bits, b: Bits, i: nat)
    requires |a| == |b| && i <= |a|
    ensures Xor(a, b)[..i] == Xor(a[..i], b[..i]) && Xor(a, b)[i..] == Xor(a[i..], b[i..])
  {
  }

  lemma ShiftIsLinear(r: Bits, s: Bits, x: bool, y: bool, poly: Bits)
    requires 0 < |r| == |s| == |poly|
    ensures Shift(Add(Xor(r, s), [x != y]), poly) == Xor(Shift(Add(r, [x]), poly), Shift(Add(s, [y]), poly))
  {
    var u, v, w := Add(r, [x]), Add(s, [y]), Add(Xor(r, s), [x != y]);
    hide Shift, Add;
    forall k | 0 <= k < |r|
      ensures w[k] == (u[k] != v[k])
    {
      AddAt(r, [x], k);
      AddAt(s, [y], k);
      AddAt(Xor(r, s), [x != y], k);
    }
    forall k | 0 <= k < |r|
      ensures Shift(w, poly)[k] == (Shift(u, poly)[k] != Shift(v, poly)[k])
    {
      ShiftAt(u, poly, k);
      ShiftAt(v, poly, k);
      ShiftAt(w, poly, k);
    }
  }

  /** The machine is linear: registers and messages may be added before or after. */
  lemma {:induction false} ClockIsLinear(r: Bits, s: Bits, x: Bits, y: Bits, poly: Bits)
    requires 0 < |r| == |s| == |poly| && |x| == |y|
    ensures Clock(Xor(r, s), Xor(x, y), poly) == Xor(Clock(r, x, poly), Clock(s, y, poly))
    decreases |x|
  {
    if x != [] {
      assert x[..1] == [x[0]] && y[..1] == [y[0]] && Xor(x, y)[..1] == [x[0] != y[0]];
      ShiftIsLinear(r, s, x[0], y[0], poly);
      XorSlices(x, y, 1);
      ClockIsLinear(Shift(Add(r, [x[0]]), poly), Shift(Add(s, [y[0]]), poly), x[1..], y[1..], poly);
    }
  }
}
