/** The log sink's rate limiter: how many lines pass it, over any run of messages. Times are nanoseconds. */
module RateLimiter {

  const SECOND := 1_000_000_000

  datatype Message = Message(level: int, now: int)

  datatype Limiter = Limiter(threshold: int, limit: int, windowStart: int, count: nat)

  /** What one message does, and whether its line passes on to the publisher. */
  function Next(s: Limiter, m: Message): (r: (Limiter, bool))
    ensures r.0.threshold == s.threshold && r.0.limit == s.limit
  {
    if m.level < s.threshold then (s, false)
    else if s.limit <= 0 then (s, true)
    else
      var s1 := if m.now - s.windowStart >= SECOND then s.(windowStart := m.now, count := 0) else s;
      if s1.count >= s.limit then (s1, false) else (s1.(count := s1.count + 1), true)
  }

  function Run(s: Limiter, messages: seq<Message>): (r: Limiter)
    ensures r.threshold == s.threshold && r.limit == s.limit
  {
    if messages == [] then s else Next(Run(s, messages[..|messages| - 1]), messages[|messages| - 1]).0
  }

  predicate Passes(s: Limiter, messages: seq<Message>, k: nat)
    requires k < |messages|
  {
    Next(Run(s, messages[..k]), messages[k]).1
  }

  /** How many lines pass. */
  function Passed(s: Limiter, messages: seq<Message>): (n: nat)
    ensures n <= |messages|
  {
    if messages == [] then 0
    else Passed(s, messages[..|messages| - 1]) + if Passes(s, messages, |messages| - 1) then 1 else 0
  }

  predicate Clocked(messages: seq<Message>) {
    forall i, j | 0 <= i < j < |messages| :: messages[i].now <= messages[j].now
  }

  class TopicSink {
    const threshold: int
    const limit: int
    var windowStart: int
    var count: nat

    function View(): Limiter
      reads this
    {
      Limiter(threshold, limit, windowStart, count)
    }

    constructor (threshold: int, limit: int)
      ensures View() == Limiter(threshold, limit, 0, 0)
    {
      this.threshold, this.limit := threshold, limit;
      windowStart, count := 0, 0;
    }

    method SinkIt(m: Message) returns (pass: bool)
      modifies this
      ensures (View(), pass) == Next(old(View()), m)
    {
      if m.level < threshold {
        return false;
      }
      if limit > 0 {
        if m.now - windowStart >= SECOND {
          windowStart := m.now;
          count := 0;
        }
        if count >= limit {
          return false;
        }
        count := count + 1;
      }
      return true;
    }
  }

  lemma RunThen(s: Limiter, messages: seq<Message>, m: Message)
    ensures Run(s, messages + [m]) == Next(Run(s, messages), m).0
    ensures Passed(s, messages + [m]) == Passed(s, messages) + if Next(Run(s, messages), m).1 then 1 else 0
  {
    assert (messages + [m])[..|messages|] == messages;
  }

  lemma {:induction false} RunConcat(s: Limiter, a: seq<Message>, b: seq<Message>)
    ensures Run(s, a + b) == Run(Run(s, a), b)
    ensures Passed(s, a + b) == Passed(s, a) + Passed(Run(s, a), b)
  {
    if b == [] {
      assert a + b == a;
    } else {
      var last := |b| - 1;
      RunConcat(s, a, b[..last]);
      RunThen(s, a + b[..last], b[last]);
      assert a + b == a + b[..last] + [b[last]];
    }
  }

  lemma {:induction false} CountWithinLimit(s: Limiter, messages: seq<Message>)
    requires 0 < s.limit && s.count <= s.limit
    ensures Run(s, messages).count <= s.limit
  {
    if messages != [] {
      CountWithinLimit(s, messages[..|messages| - 1]);
    }
  }

  // ------------------------------------------------------------ which messages pass

  /**
   What becomes of the k-th message of any run, for every limit: one below the threshold is
   dropped and changes nothing; without a positive limit every other one passes; with one, a
   message passes exactly when its window is due or has lines left, and only then is counted.
   */
  lemma EachMessage(s: Limiter, messages: seq<Message>, k: nat)
    requires k < |messages|
    ensures var m, before, after := messages[k], Run(s, messages[..k]), Run(s, messages[..k + 1]);
            && (m.level < s.threshold ==> !Passes(s, messages, k) && after == before)
            && (m.level >= s.threshold && s.limit <= 0 ==> Passes(s, messages, k) && after == before)
            && (m.level >= s.threshold && 0 < s.limit ==>
                  if m.now - before.windowStart >= 1_000_000_000 then
                    Passes(s, messages, k) && after == Limiter(s.threshold, s.limit, m.now, 1)
                  else if before.count < s.limit then
                    Passes(s, messages, k) && after == before.(count := before.count + 1)
                  else
                    !Passes(s, messages, k) && after == before)
  {
    assert messages[..k + 1] == messages[..k] + [messages[k]];
    RunThen(s, messages[..k], messages[k]);
  }

  /** The default: a sink without a limit passes every message that reaches the threshold, over every run. */
  lemma UnlimitedPassesAll(s: Limiter, messages: seq<Message>, k: nat)
    requires k < |messages| && s.limit <= 0
    ensures Passes(s, messages, k) <==> messages[k].level >= s.threshold
  {
    EachMessage(s, messages, k);
  }

  predicate Reaches(s: Limiter, m: Message) {
    m.level >= s.threshold
  }

  function Reaching(s: Limiter, messages: seq<Message>): (n: nat)
    ensures n <= |messages|
  {
    if messages == [] then 0
    else Reaching(s, messages[..|messages| - 1]) + if Reaches(s, messages[|messages| - 1]) then 1 else 0
  }

  /** A run nobody limits, or none of whose messages exceeds the limit, loses no line that reaches the threshold. */
  lemma {:induction false} NothingIsLost(s: Limiter, messages: seq<Message>)
    requires s.limit <= 0 || s.count + Reaching(s, messages) <= s.limit
    ensures Passed(s, messages) == Reaching(s, messages)
    ensures Run(s, messages).count <= s.count + Reaching(s, messages)
  {
    if messages != [] {
      NothingIsLost(s, messages[..|messages| - 1]);
    }
  }

  // ------------------------------------------------------------ one window

  /** Every message of the run is handled in the window that starts at `start`. */
  predicate OneWindow(s: Limiter, messages: seq<Message>, start: int) {
    forall k | 0 < k <= |messages| :: Run(s, messages[..k]).windowStart == start
  }

  /** No window lets more than the limit through. */
  lemma {:induction false} WindowIsLimited(s: Limiter, messages: seq<Message>, start: int)
    requires 0 < s.limit && s.count <= s.limit && OneWindow(s, messages, start)
    ensures Passed(s, messages) <= Run(s, messages).count <= s.limit
  {
    if messages != [] {
      var last := |messages| - 1;
      forall k | 0 < k <= last ensures Run(s, messages[..last][..k]).windowStart == start {
        assert messages[..last][..k] == messages[..k];
      }
      assert messages[..|messages|] == messages;
      WindowIsLimited(s, messages[..last], start);
    }
  }

  // ------------------------------------------------------------ any interval of a second

  /** Within one second from t: nothing yet, still in the window found, in one opened at t, or in a later one. */
  predicate Stage(s: Limiter, r: Limiter, passed: nat, t: int) {
    && r.count <= r.limit
    && (|| (r == s && t - s.windowStart >= SECOND && passed == 0)
        || (r.windowStart == s.windowStart && t - s.windowStart < SECOND && passed + s.count <= r.count)
        || (r.windowStart == t && passed <= r.count)
        || (r.windowStart > t && passed <= r.limit + r.count))
  }

  lemma StageStep(s: Limiter, r: Limiter, passed: nat, t: int, m: Message)
    requires 0 < s.limit == r.limit && Stage(s, r, passed, t) && t <= m.now <= t + SECOND
    ensures var (r', pass) := Next(r, m); Stage(s, r', passed + if pass then 1 else 0, t)
  {
  }

  lemma {:induction false} StageRun(s: Limiter, messages: seq<Message>, t: int)
    requires 0 < s.limit && s.count <= s.limit
    requires forall k | 0 <= k < |messages| :: t <= messages[k].now <= t + SECOND
    ensures Stage(s, Run(s, messages), Passed(s, messages), t)
  {
    if messages != [] {
      var last := |messages| - 1;
      assert messages == messages[..last] + [messages[last]];
      RunThen(s, messages[..last], messages[last]);
      StageRun(s, messages[..last], t);
      StageStep(s, Run(s, messages[..last]), Passed(s, messages[..last]), t, messages[last]);
    }
  }

  lemma StageBound(s: Limiter, r: Limiter, passed: nat, t: int)
    requires 0 < s.limit == r.limit && Stage(s, r, passed, t)
    ensures passed <= 2 * s.limit
  {
  }

  lemma InOrder(messages: seq<Message>, i: nat, j: nat)
    requires Clocked(messages) && i <= j < |messages|
    ensures messages[i].now <= messages[j].now
  {
  }

  /** However the messages come, any of them that lie within one second let at most twice the limit through. */
  lemma AtMostTwiceTheLimit(s: Limiter, messages: seq<Message>, i: nat, j: nat)
    requires 0 < s.limit && s.count <= s.limit && Clocked(messages)
    requires i < j <= |messages| && messages[j - 1].now - messages[i].now <= SECOND
    ensures Passed(s, messages[..j]) - Passed(s, messages[..i]) <= 2 * s.limit
  {
    hide Clocked, Run, Passed, Stage;
    var before, within := messages[..i], messages[i..j];
    forall k | 0 <= k < j - i ensures messages[i].now <= within[k].now <= messages[j - 1].now {
      InOrder(messages, i, i + k);
      InOrder(messages, i + k, j - 1);
    }
    CountWithinLimit(s, before);
    StageRun(Run(s, before), within, messages[i].now);
    StageBound(Run(s, before), Run(Run(s, before), within), Passed(Run(s, before), within), messages[i].now);
    RunConcat(s, before, within);
    assert messages[..j] == before + within;
  }

  function Copies(m: Message, n: nat): seq<Message> {
    seq(n, _ => m)
  }

  lemma {:induction false} CopiesPass(s: Limiter, m: Message, n: nat)
    requires 0 < s.limit && m.level >= s.threshold && 0 < n
    requires (if m.now - s.windowStart >= SECOND then n else s.count + n) <= s.limit
    ensures Passed(s, Copies(m, n)) == n
    ensures Run(s, Copies(m, n)) ==
            if m.now - s.windowStart >= SECOND then s.(windowStart := m.now, count := n) else s.(count := s.count + n)
  {
    assert Copies(m, n) == Copies(m, n - 1) + [m];
    RunThen(s, Copies(m, n - 1), m);
    if n > 1 {
      CopiesPass(s, m, n - 1);
    }
  }

  /** The bound is reached, and within a nanosecond: a full window just before the next one opens. */
  lemma TwiceTheLimitCanPass(limit: nat, level: int)
    requires limit > 0
    ensures var s := Limiter(level, limit, 0, 0);
            var messages := Copies(Message(level, SECOND - 1), limit) + Copies(Message(level, SECOND), limit);
            Clocked(messages) && Passed(s, messages) == 2 * limit
  {
    var s := Limiter(level, limit, 0, 0);
    var first, second := Message(level, SECOND - 1), Message(level, SECOND);
    CopiesPass(s, first, limit);
    CopiesPass(Run(s, Copies(first, limit)), second, limit);
    RunConcat(s, Copies(first, limit), Copies(second, limit));
  }

  // ------------------------------------------------------------ exactly how many in the second from t

  predicate WithinSecond(messages: seq<Message>, t: int) {
    forall k | 0 <= k < |messages| :: t <= messages[k].now < t + SECOND
  }

  /** One window at most opens within the second: what is left of the one found counts only if that is open after t. */
  function MostWithinSecond(s: Limiter, t: int): int {
    if t - s.windowStart >= SECOND then s.limit
    else if s.windowStart >= t then s.limit - s.count
    else s.limit - s.count + s.limit
  }

  /** Still in the window found, or in the one opened since. */
  predicate SecondStage(s: Limiter, r: Limiter, passed: nat, t: int) {
    && r.count <= r.limit
    && (|| (r == s && passed == 0)
        || (r.windowStart == s.windowStart && t - s.windowStart < SECOND && passed + s.count == r.count)
        || (r.windowStart >= t && passed + s.limit <= MostWithinSecond(s, t) + r.count && s.windowStart < t))
  }

  lemma SecondStageStep(s: Limiter, r: Limiter, passed: nat, t: int, m: Message)
    requires 0 < s.limit == r.limit && s.count <= s.limit && SecondStage(s, r, passed, t) && t <= m.now < t + SECOND
    ensures var (r', pass) := Next(r, m); SecondStage(s, r', passed + if pass then 1 else 0, t)
  {
  }

  lemma {:induction false} SecondIsBounded(s: Limiter, messages: seq<Message>, t: int)
    requires 0 < s.limit && s.count <= s.limit && WithinSecond(messages, t)
    ensures SecondStage(s, Run(s, messages), Passed(s, messages), t)
    ensures Passed(s, messages) <= MostWithinSecond(s, t)
  {
    if messages != [] {
      var last := |messages| - 1;
      assert messages == messages[..last] + [messages[last]];
      RunThen(s, messages[..last], messages[last]);
      SecondIsBounded(s, messages[..last], t);
      SecondStageStep(s, Run(s, messages[..last]), Passed(s, messages[..last]), t, messages[last]);
    }
  }

  /** Copies of one message, as many as its window still takes; possibly none. */
  lemma RestPasses(s: Limiter, m: Message, n: nat)
    requires 0 < s.limit && m.level >= s.threshold
    requires m.now - s.windowStart < SECOND && s.count + n <= s.limit
    ensures Passed(s, Copies(m, n)) == n && Run(s, Copies(m, n)) == s.(count := s.count + n)
  {
    if n > 0 {
      CopiesPass(s, m, n);
    }
  }

  lemma CopiesInOrder(first: Message, k: nat, second: Message, n: nat, t: int)
    requires t <= first.now <= second.now < t + SECOND
    ensures Clocked(Copies(first, k) + Copies(second, n)) && WithinSecond(Copies(first, k) + Copies(second, n), t)
  {
  }

  /** Messages that reach the bound: the rest of the window found, then a whole one. */
  lemma FullSecond(s: Limiter, t: int) returns (messages: seq<Message>)
    requires 0 < s.limit && s.count <= s.limit
    ensures Clocked(messages) && WithinSecond(messages, t) && Passed(s, messages) == MostWithinSecond(s, t)
  {
    hide Run, Passed, Clocked, WithinSecond, Copies;
    var rest := if t - s.windowStart >= SECOND then 0 else s.limit - s.count;
    var first := Message(s.threshold, t);
    var second := if t - s.windowStart >= SECOND then first else Message(s.threshold, s.windowStart + SECOND);
    if s.windowStart < t {
      messages := Copies(first, rest) + Copies(second, s.limit);
      CopiesInOrder(first, rest, second, s.limit, t);
      RunConcat(s, Copies(first, rest), Copies(second, s.limit));
      if rest == 0 {
        NoCopies(s, first);
      } else {
        RestPasses(s, first, rest);
      }
      CopiesPass(Run(s, Copies(first, rest)), second, s.limit);
    } else {
      messages := Copies(first, rest) + Copies(first, 0);
      CopiesInOrder(first, rest, first, 0, t);
      RunConcat(s, Copies(first, rest), Copies(first, 0));
      NoCopies(Run(s, Copies(first, rest)), first);
      RestPasses(s, first, rest);
    }
  }

  lemma NoCopies(s: Limiter, m: Message)
    ensures Run(s, Copies(m, 0)) == s && Passed(s, Copies(m, 0)) == 0
  {
  }

  /** A window is already due, not older than t, or used up. */
  predicate KeepsToLimit(s: Limiter, t: int) {
    t - s.windowStart >= SECOND || s.windowStart >= t || s.count == s.limit
  }

  /**
   Exactly how many lines the second from t can let through, and that the limit is kept for
   that second, however the messages come, exactly when the state at its start allows it.
   */
  lemma LimitWithinSecondIsExact(s: Limiter, t: int)
    requires 0 < s.limit && s.count <= s.limit
    ensures forall messages | WithinSecond(messages, t) :: Passed(s, messages) <= MostWithinSecond(s, t)
    ensures exists messages ::
              Clocked(messages) && WithinSecond(messages, t) && Passed(s, messages) == MostWithinSecond(s, t)
    ensures (forall messages | Clocked(messages) && WithinSecond(messages, t) :: Passed(s, messages) <= s.limit)
            <==> KeepsToLimit(s, t)
  {
    forall messages | WithinSecond(messages, t) ensures Passed(s, messages) <= MostWithinSecond(s, t) {
      SecondIsBounded(s, messages, t);
    }
    var full := FullSecond(s, t);
    assert Clocked(full) && WithinSecond(full, t);
    assert MostWithinSecond(s, t) <= s.limit <==> KeepsToLimit(s, t);
  }
}
