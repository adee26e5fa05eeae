/** Welford's running mean and variance against the two-pass definitions. */
module MeanVariances {
  import opened Windows

  function Square(x: real): (r: real)
    ensures r >= 0.0
  {
    x * x
  }

  /** The sum of the squared distances from c. */
  function Spread(s: seq<real>, c: real): (d: real)
    ensures d >= 0.0
  {
    if s == [] then 0.0 else Spread(s[..|s| - 1], c) + Square(s[|s| - 1] - c)
  }

  /** The sample variance: 0 for fewer than two samples. */
  function TwoPassVariance(s: seq<real>): real {
    if |s| > 1 then Spread(s, Mean(s)) / (|s| - 1) as real else 0.0
  }

  // ------------------------------------------------------------ moving the centre

  /** How much the spread of n numbers with total t grows when the centre moves from a to c. */
  function Moved(n: real, t: real, a: real, c: real): real {
    2.0 * (a - c) * (t - n * a) + n * ((a - c) * (a - c))
  }

  lemma MovedThen(n: real, t: real, x: real, a: real, c: real)
    ensures Moved(n, t, a, c) + Square(x - c) == Square(x - a) + Moved(n + 1.0, t + x, a, c)
    ensures Moved(0.0, 0.0, a, c) == 0.0
  {
  }

  lemma {:induction false} SpreadAround(s: seq<real>, a: real, c: real)
    ensures Spread(s, c) == Spread(s, a) + Moved(|s| as real, Sum(s), a, c)
  {
    hide Moved, Square;
    if s == [] {
      MovedThen(0.0, 0.0, 0.0, a, c);
    } else {
      var last := |s| - 1;
      SpreadAround(s[..last], a, c);
      MovedThen(last as real, Sum(s[..last]), s[last], a, c);
      assert |s| as real == last as real + 1.0;
    }
  }

  /** One more sample x, with the mean moving from a to c: what the products of the update come to. */
  lemma UpdateProducts(n: real, t: real, x: real, a: real, c: real)
    requires n >= 0.0 && n * a == t && c == a + (x - a) / (n + 1.0)
    ensures (n + 1.0) * c == t + x
    ensures (x - a) * (x - c) == Moved(n, t, a, c) + Square(x - c)
  {
    var d := c - a;
    assert (n + 1.0) * d == x - a;
    assert n * d == x - c;
    calc {
      (x - a) * (x - c);
      (n * d + d) * (x - c);
      (n * d) * (x - c) + d * (x - c);
      (x - c) * (x - c) + d * (n * d);
    }
    assert Moved(n, t, a, c) == d * (n * d) by {
      assert t - n * a == 0.0;
    }
  }

  function SumOfSquares(s: seq<real>): real {
    if s == [] then 0.0 else SumOfSquares(s[..|s| - 1]) + s[|s| - 1] * s[|s| - 1]
  }

  lemma {:induction false} SpreadAroundZero(s: seq<real>)
    ensures Spread(s, 0.0) == SumOfSquares(s)
  {
    if s != [] {
      SpreadAroundZero(s[..|s| - 1]);
    }
  }

  lemma MovedFromZero(n: real, t: real, c: real)
    requires n * c == t
    ensures Moved(n, t, 0.0, c) == -(n * c * c)
  {
    assert t * c == n * c * c;
  }

  /** The sample variance by the sum of squares: the divisor is one less than the number of samples. */
  lemma VarianceBySquares(s: seq<real>)
    ensures |s| > 1 ==>
              TwoPassVariance(s) == (SumOfSquares(s) - |s| as real * Mean(s) * Mean(s)) / (|s| - 1) as real
    ensures |s| <= 1 ==> TwoPassVariance(s) == 0.0
  {
    hide Moved, SumOfSquares, Spread, Mean;
    if |s| > 1 {
      var n, c := |s| as real, Mean(s);
      MeanTimesCount(s);
      SpreadAround(s, 0.0, c);
      SpreadAroundZero(s);
      MovedFromZero(n, Sum(s), c);
      assert Spread(s, c) == SumOfSquares(s) - n * c * c;
    }
  }

  /** Two samples: half the square of their distance. */
  lemma VarianceOfTwo(x: real, y: real)
    ensures TwoPassVariance([x, y]) == Square(x - y) / 2.0
  {
    hide Square;
    var s, m := [x, y], (x + y) / 2.0;
    assert s[..1] == [x] && s[..1][..0] == [];
    assert Sum(s[..1]) == x && Sum(s) == x + y && Mean(s) == m;
    assert Spread(s[..1], m) == Square(x - m);
    assert Spread(s, m) == Square(x - m) + Square(y - m);
    HalfSquares(x, y);
  }

  lemma HalfSquares(x: real, y: real)
    ensures Square(x - (x + y) / 2.0) + Square(y - (x + y) / 2.0) == Square(x - y) / 2.0
  {
  }

  // ------------------------------------------------------------ the running form

  /** The state after the samples s. */
  predicate Running(s: seq<real>, count: nat, mean: real, m2: real) {
    && count == |s|
    && count as real * mean == Sum(s)
    && (s == [] ==> mean == 0.0)
    && m2 == Spread(s, mean)
  }

  lemma RunningStep(s: seq<real>, count: nat, mean: real, m2: real, x: real, mean': real, m2': real)
    requires Running(s, count, mean, m2)
    requires mean' == mean + (x - mean) / (count + 1) as real && m2' == m2 + (x - mean) * (x - mean')
    ensures Running(s + [x], count + 1, mean', m2')
  {
    hide Moved, Square;
    assert (s + [x])[..|s|] == s;
    assert (count + 1) as real == count as real + 1.0;
    UpdateProducts(count as real, Sum(s), x, mean, mean');
    SpreadAround(s, mean, mean');
  }

  /** The running form is the two-pass form. */
  lemma RunningIsTwoPass(s: seq<real>, count: nat, mean: real, m2: real)
    requires Running(s, count, mean, m2)
    ensures mean == Mean(s)
    ensures (if count > 1 then m2 / (count - 1) as real else 0.0) == TwoPassVariance(s) >= 0.0
  {
  }

  class MeanVariance {
    var count: nat
    var mean: real
    var m2: real
    ghost var samples: seq<real>

    ghost predicate Valid()
      reads this
    {
      Running(samples, count, mean, m2)
    }

    constructor ()
      ensures Valid() && samples == []
    {
      count, mean, m2, samples := 0, 0.0, 0.0, [];
    }

    method Update(sample: real)
      requires Valid()
      modifies this
      ensures Valid() && samples == old(samples) + [sample]
    {
      hide Running;
      ghost var mean0, m20 := mean, m2;
      count := count + 1;
      var delta := sample - mean;
      mean := mean + delta / count as real;
      var delta2 := sample - mean;
      m2 := m2 + delta * delta2;
      RunningStep(samples, count - 1, mean0, m20, sample, mean, m2);
      samples := samples + [sample];
    }

    method MeanValue() returns (r: real)
      requires Valid()
      ensures r == Mean(samples)
    {
      RunningIsTwoPass(samples, count, mean, m2);
      r := mean;
    }

    method Variance() returns (r: real)
      requires Valid()
      ensures r == TwoPassVariance(samples) && r >= 0.0
    {
      RunningIsTwoPass(samples, count, mean, m2);
      r := if count > 1 then m2 / (count - 1) as real else 0.0;
    }

    method Reset()
      modifies this
      ensures Valid() && samples == []
    {
      count, mean, m2, samples := 0, 0.0, 0.0, [];
    }
  }
}
