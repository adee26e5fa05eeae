/** Filters over the last samples: ring buffers against the plain history of samples. */
module Windows {

  /** The last n elements, or all of them. */
  function LastN<T>(s: seq<T>, n: nat): (r: seq<T>)
    ensures |r| == if |s| < n then |s| else n
  {
    if |s| <= n then s else s[|s| - n..]
  }

  function Sum(s: seq<real>): real {
    if s == [] then 0.0 else Sum(s[..|s| - 1]) + s[|s| - 1]
  }

  lemma {:induction false} SumDropFirst(s: seq<real>)
    requires s != []
    ensures Sum(s[1..]) == Sum(s) - s[0]
  {
    var last := |s| - 1;
    if last > 0 {
      SumDropFirst(s[..last]);
      assert s[1..][..last - 1] == s[..last][1..];
    }
  }

  lemma SumThen(s: seq<real>, x: real)
    ensures Sum(s + [x]) == Sum(s) + x
  {
    assert (s + [x])[..|s|] == s;
  }

  /** Every sample counts once, wherever it stands. */
  lemma {:induction false} SumOfParts(a: seq<real>, x: real, b: seq<real>)
    ensures Sum(a + [x] + b) == Sum(a) + x + Sum(b) && Sum([]) == 0.0
  {
    if b == [] {
      assert a + [x] + b == a + [x];
      SumThen(a, x);
    } else {
      var init := b[..|b| - 1];
      SumOfParts(a, x, init);
      SumThen(a + [x] + init, b[|b| - 1]);
      assert a + [x] + b == a + [x] + init + [b[|b| - 1]];
    }
  }

  /** Sliding on by one sample: the oldest leaves once the window is full. */
  lemma LastNThen<T>(history: seq<T>, x: T, n: nat)
    requires n > 0
    ensures var samples := LastN(history, n);
            LastN(history + [x], n) == (if |samples| < n then samples else samples[1..]) + [x]
  {
  }

  function Mean(s: seq<real>): real {
    if s == [] then 0.0 else Sum(s) / |s| as real
  }

  /** The mean times the number of samples is their sum, and the mean of nothing is 0. */
  lemma MeanTimesCount(s: seq<real>)
    ensures |s| as real * Mean(s) == Sum(s) && Mean([]) == 0.0
  {
  }

  /** The ring: filled from the front, then overwritten from the oldest on. */
  predicate Holds(values: seq<real>, count: nat, next: nat, samples: seq<real>) {
    && 0 < |values| && count == |samples| <= |values| && next < |values|
    && (count < |values| ==> next == count && values[..count] == samples)
    && (count == |values| ==> values[next..] + values[..next] == samples)
  }

  function Step(next: nat, n: nat): nat {
    if next + 1 == n then 0 else next + 1
  }

  lemma StepIsModulo(next: nat, n: nat)
    requires next < n
    ensures (next + 1) % n == Step(next, n)
  {
  }

  lemma FillingStep(values: seq<real>, next: nat, samples: seq<real>, x: real)
    requires Holds(values, |samples|, next, samples) && |samples| < |values|
    ensures Holds(values[next := x], |samples| + 1, Step(next, |values|), samples + [x])
  {
    var count := |samples|;
    var after := values[next := x];
    assert after[..count + 1] == values[..count] + [x];
    if count + 1 == |values| {
      assert after[0..] + after[..0] == after[..count + 1];
    }
  }

  lemma FullStep(values: seq<real>, next: nat, samples: seq<real>, x: real)
    requires Holds(values, |samples|, next, samples) && |samples| == |values|
    ensures Holds(values[next := x], |samples|, Step(next, |values|), samples[1..] + [x])
    ensures values[next] == samples[0]
  {
    var after, step := values[next := x], Step(next, |values|);
    var front, back := values[..next], values[next + 1..];
    assert values[next..] == [values[next]] + back;
    assert samples == [values[next]] + back + front;
    assert samples[1..] == back + front;
    if step == 0 {
      assert back == [] && after == front + [x];
      assert after[0..] + after[..0] == after;
    } else {
      assert after[step..] == back && after[..step] == front + [x];
      assert back + (front + [x]) == back + front + [x];
    }
  }

  /** Writing at `next` and stepping on: the ring holds the last samples again. */
  lemma RingStep(values: seq<real>, count: nat, next: nat, history: seq<real>, x: real)
    requires Holds(values, count, next, LastN(history, |values|))
    ensures Holds(values[next := x], if count < |values| then count + 1 else count, Step(next, |values|),
                  LastN(history + [x], |values|))
    ensures count < |values| ==> next == count
    ensures count == |values| ==> values[next] == LastN(history, |values|)[0]
  {
    hide LastN;
    var samples := LastN(history, |values|);
    LastNThen(history, x, |values|);
    if count < |values| {
      FillingStep(values, next, samples, x);
    } else {
      FullStep(values, next, samples, x);
    }
  }

  /** The sum moves with the window. */
  lemma SumStep(history: seq<real>, x: real, n: nat)
    requires n > 0
    ensures var samples := LastN(history, n);
            Sum(LastN(history + [x], n)) == Sum(samples) - (if |samples| < n then 0.0 else samples[0]) + x
  {
    hide LastN;
    var samples := LastN(history, n);
    LastNThen(history, x, n);
    if |samples| < n {
      SumThen(samples, x);
    } else {
      SumDropFirst(samples);
      SumThen(samples[1..], x);
    }
  }

  class SlidingWindow {
    const window: nat
    const values: array<real>
    var sum: real
    var count: nat
    var next: nat
    ghost var history: seq<real>

    ghost predicate Valid()
      reads this, values
    {
      && values.Length == window && next < window && count == |LastN(history, window)|
      && Holds(values[..], count, next, LastN(history, window))
      && sum == Sum(LastN(history, window))
    }

    constructor (window: nat)
      requires window > 0
      ensures Valid() && fresh(values) && this.window == window && history == []
    {
      this.window := window;
      values := new real[window](_ => 0.0);
      sum, count, next, history := 0.0, 0, 0, [];
      new;
      assert values[..0] == [];
    }

    /** The window then holds the last samples of the whole history, and `sum` is their sum. */
    method Push(sample: real)
      requires Valid()
      modifies this, values
      ensures Valid() && history == old(history) + [sample]
    {
      hide LastN, Holds, Sum;
      RingStep(values[..], count, next, history, sample);
      SumStep(history, sample, window);
      StepIsModulo(next, window);
      ghost var was := values[..];
      if count < window {
        values[count] := sample;
        count := count + 1;
        sum := sum + sample;
      } else {
        sum := sum - values[next];
        values[next] := sample;
        sum := sum + sample;
      }
      assert values[..] == was[next := sample];
      next := (next + 1) % window;
      history := history + [sample];
    }

    method MeanValue() returns (mean: real)
      requires Valid()
      ensures mean == Mean(LastN(history, window))
    {
      mean := if count == 0 then 0.0 else sum / count as real;
    }

    method Reset()
      requires Valid()
      modifies this, values
      ensures Valid() && history == []
    {
      forall i | 0 <= i < values.Length {
        values[i] := 0.0;
      }
      sum, count, next, history := 0.0, 0, 0, [];
      assert values[..0] == [];
    }
  }

  /** MovingAverage keeps the same ring and returns the mean of each update. */
  method UpdateAverage(w: SlidingWindow, sample: real) returns (mean: real)
    requires w.Valid()
    modifies w, w.values
    ensures w.Valid() && w.history == old(w.history) + [sample]
    ensures mean == Mean(LastN(w.history, w.window))
  {
    w.Push(sample);
    mean := w.MeanValue();
  }

  // ------------------------------------------------------------ median

  predicate Ascending(s: seq<real>) {
    forall i, j | 0 <= i < j < |s| :: s[i] <= s[j]
  }

  /** The first position with a larger element. */
  function Position(s: seq<real>, x: real): (p: nat)
    ensures p <= |s|
    ensures forall i | 0 <= i < p :: s[i] <= x
    ensures p < |s| ==> x < s[p]
  {
    if s == [] || x < s[0] then 0 else 1 + Position(s[1..], x)
  }

  function Insert(s: seq<real>, x: real): (r: seq<real>)
    requires Ascending(s)
    ensures Ascending(r) && |r| == |s| + 1
  {
    var p := Position(s, x);
    s[..p] + [x] + s[p..]
  }

  /** std::sort; what it keeps is SortedCounts. */
  function Sorted(s: seq<real>): (r: seq<real>)
    ensures Ascending(r) && |r| == |s|
  {
    if s == [] then [] else Insert(Sorted(s[..|s| - 1]), s[|s| - 1])
  }

  /** How many samples are below x, or at most x when `equal`. */
  function Count(s: seq<real>, x: real, equal: bool): (n: nat)
    ensures n <= |s|
  {
    if s == [] then 0
    else
      var last := s[|s| - 1];
      Count(s[..|s| - 1], x, equal) + if last < x || (equal && last == x) then 1 else 0
  }

  lemma CountThen(s: seq<real>, y: real, x: real, equal: bool)
    ensures Count(s + [y], x, equal) == Count(s, x, equal) + if y < x || (equal && y == x) then 1 else 0
  {
    assert (s + [y])[..|s|] == s;
  }

  lemma {:induction false} CountConcat(a: seq<real>, b: seq<real>, x: real, equal: bool)
    ensures Count(a + b, x, equal) == Count(a, x, equal) + Count(b, x, equal)
  {
    if b == [] {
      assert a + b == a;
    } else {
      var last := |b| - 1;
      CountConcat(a, b[..last], x, equal);
      CountThen(a + b[..last], b[last], x, equal);
      assert a + b == a + b[..last] + [b[last]];
    }
  }

  lemma InsertCounts(s: seq<real>, y: real, x: real, equal: bool)
    requires Ascending(s)
    ensures Count(Insert(s, y), x, equal) == Count(s, x, equal) + Count([y], x, equal)
  {
    hide Count;
    var p := Position(s, y);
    CountConcat(s[..p] + [y], s[p..], x, equal);
    CountConcat(s[..p], [y], x, equal);
    CountConcat(s[..p], s[p..], x, equal);
    assert s[..p] + s[p..] == s;
  }

  lemma SortedThen(s: seq<real>)
    ensures Sorted([]) == []
    ensures s != [] ==> Sorted(s) == Insert(Sorted(s[..|s| - 1]), s[|s| - 1])
  {
  }

  /** Sorting does not change how many samples are below a value. */
  lemma {:induction false} SortedCounts(s: seq<real>, x: real, equal: bool)
    ensures Count(Sorted(s), x, equal) == Count(s, x, equal)
  {
    hide Sorted, Insert, Count, Ascending;
    SortedThen(s);
    if s != [] {
      var init, last := s[..|s| - 1], s[|s| - 1];
      SortedCounts(init, x, equal);
      InsertCounts(Sorted(init), last, x, equal);
      CountConcat(init, [last], x, equal);
      assert s == init + [last];
    }
  }

  lemma {:induction false} AscendingCounts(t: seq<real>, k: nat, x: real)
    requires Ascending(t)
    ensures (forall i | k <= i < |t| :: t[i] >= x) ==> Count(t, x, false) <= k
    ensures (forall i | 0 <= i < |t| && i <= k :: t[i] <= x) && k < |t| ==> Count(t, x, true) >= k + 1
  {
    if t != [] {
      var last := |t| - 1;
      if k == last {
        AllAtMost(t, x);
      }
      AscendingCounts(t[..last], k, x);
    }
  }

  lemma {:induction false} AllAtMost(t: seq<real>, x: real)
    ensures (forall i | 0 <= i < |t| :: t[i] <= x) ==> Count(t, x, true) == |t|
  {
    if t != [] {
      AllAtMost(t[..|t| - 1], x);
    }
  }

  /** m is the (k+1)-th smallest of the samples. */
  predicate OrderStatistic(s: seq<real>, k: nat, m: real) {
    Count(s, m, false) <= k < Count(s, m, true)
  }

  lemma SortedGivesOrderStatistic(s: seq<real>, k: nat)
    requires k < |s|
    ensures OrderStatistic(s, k, Sorted(s)[k])
  {
    hide Sorted, Count;
    var t := Sorted(s);
    AscendingCounts(t, k, t[k]);
    SortedCounts(s, t[k], false);
    SortedCounts(s, t[k], true);
  }

  /** A value of some rank is one of the samples. */
  lemma {:induction false} OrderStatisticIsSample(s: seq<real>, m: real)
    ensures m !in s ==> Count(s, m, false) == Count(s, m, true)
  {
    if s != [] {
      OrderStatisticIsSample(s[..|s| - 1], m);
    }
  }

  /** There is only one value of that rank. */
  lemma OrderStatisticIsUnique(s: seq<real>, k: nat, m: real, m': real)
    requires OrderStatistic(s, k, m) && OrderStatistic(s, k, m')
    ensures m == m'
  {
    if m < m' {
      CountMonotone(s, m, m');
    } else if m' < m {
      CountMonotone(s, m', m);
    }
  }

  lemma {:induction false} CountMonotone(s: seq<real>, m: real, m': real)
    requires m < m'
    ensures Count(s, m, true) <= Count(s, m', false)
  {
    if s != [] {
      CountMonotone(s[..|s| - 1], m, m');
    }
  }

  /** The samples in ring order and in the order they came have the same order statistics. */
  lemma RingOrderStatistic(values: seq<real>, count: nat, next: nat, samples: seq<real>, k: nat, m: real)
    requires Holds(values, count, next, samples) && OrderStatistic(values[..count], k, m)
    ensures OrderStatistic(samples, k, m)
  {
    if count == |values| {
      forall equal: bool ensures Count(samples, m, equal) == Count(values, m, equal) {
        CountConcat(values[next..], values[..next], m, equal);
        CountConcat(values[..next], values[next..], m, equal);
        assert values[..next] + values[next..] == values;
      }
      assert values[..count] == values;
    }
  }

  class MedianFilter {
    const window: nat
    const values: array<real>
    var count: nat
    var next: nat
    ghost var history: seq<real>

    ghost predicate Valid()
      reads this, values
    {
      && values.Length == window && next < window && count == |LastN(history, window)|
      && Holds(values[..], count, next, LastN(history, window))
    }

    constructor (window: nat)
      requires window > 0
      ensures Valid() && fresh(values) && this.window == window && history == []
    {
      this.window := window;
      values := new real[window](_ => 0.0);
      count, next, history := 0, 0, [];
      new;
      assert values[..0] == [];
    }

    /** The lower median of the last samples. */
    method Update(sample: real) returns (median: real)
      requires Valid()
      modifies this, values
      ensures Valid() && history == old(history) + [sample]
      ensures var samples := LastN(history, window);
              samples != [] && OrderStatistic(samples, (|samples| - 1) / 2, median)
    {
      hide LastN, Holds, Count, Sorted;
      StepIsModulo(next, window);
      RingStep(values[..], count, next, history, sample);
      ghost var was := values[..];
      values[next] := sample;
      assert values[..] == was[next := sample];
      next := (next + 1) % window;
      if count < window {
        count := count + 1;
      }
      history := history + [sample];
      var sorted := Sorted(values[..count]) + values[count..];
      median := sorted[(count - 1) / 2];
      assert median == Sorted(values[..count])[(count - 1) / 2];
      SortedGivesOrderStatistic(values[..count], (count - 1) / 2);
      assert values[..][..count] == values[..count];
      RingOrderStatistic(values[..], count, next, LastN(history, window), (count - 1) / 2, median);
    }
  }
}
