/** Collecting the newest matching log lines: bounded tails per file against a scan of everything. */
module LogTail {
  import opened Windows

  type size_t = x: int | 0 <= x < 0x1_0000_0000_0000_0000

  datatype LogFile = LogFile(name: string, readable: bool, lines: seq<string>)

  datatype LogItem = LogItem(file: string, line: string)

  datatype Filter = Filter(level: string, tag: string)

  // ------------------------------------------------------------ the filter

  /** tolower in the C locale. */
  function LowerChar(c: char): char {
    if 'A' <= c <= 'Z' then (c as int + 32) as char else c
  }

  /** The part stands at this place of the text, in any case. */
  predicate StandsAt(text: string, part: string, at: nat) {
    at + |part| <= |text| && forall k | 0 <= k < |part| :: LowerChar(text[at + k]) == LowerChar(part[k])
  }

  predicate Contains(text: string, part: string) {
    exists at | 0 <= at <= |text| :: StandsAt(text, part, at)
  }

  /** The level stands in brackets and the tag anywhere, both in any case; an empty one matches everything. */
  predicate Matches(line: string, f: Filter) {
    (f.level == "" || Contains(line, "[" + f.level + "]")) && (f.tag == "" || Contains(line, f.tag))
  }

  /** to_lower. */
  method ToLower(s: string) returns (r: string)
    ensures |r| == |s| && forall i | 0 <= i < |s| :: r[i] == LowerChar(s[i])
  {
    r := s;
    for i := 0 to |s|
      invariant |r| == |s|
      invariant forall k | 0 <= k < |s| :: r[k] == if k < i then LowerChar(s[k]) else s[k]
    {
      r := r[i := LowerChar(r[i])];
    }
  }

  predicate OccursAt(text: string, part: string, at: nat) {
    at + |part| <= |text| && text[at..at + |part|] == part
  }

  /** std::string::find: the first place of the part, or -1 for npos. */
  method Find(text: string, part: string) returns (r: int)
    ensures -1 <= r <= |text| && (r >= 0 ==> OccursAt(text, part, r))
    ensures forall at: nat | at < if r < 0 then |text| + 1 else r :: !OccursAt(text, part, at)
  {
    for at := 0 to |text| + 1
      invariant forall k: nat | k < at :: !OccursAt(text, part, k)
    {
      if at + |part| <= |text| && text[at..at + |part|] == part {
        return at;
      }
    }
    return -1;
  }

  lemma LowerOccurrence(text: string, part: string, lower: string, lowerPart: string, at: nat)
    requires |lower| == |text| && forall i | 0 <= i < |text| :: lower[i] == LowerChar(text[i])
    requires |lowerPart| == |part| && forall i | 0 <= i < |part| :: lowerPart[i] == LowerChar(part[i])
    ensures OccursAt(lower, lowerPart, at) <==> StandsAt(text, part, at)
  {
    if at + |part| <= |text| {
      var cut := lower[at..at + |part|];
      assert forall k | 0 <= k < |part| :: cut[k] == LowerChar(text[at + k]);
      if cut == lowerPart {
        assert forall k | 0 <= k < |part| :: cut[k] == lowerPart[k];
      }
    }
  }

  /** Finding a lower-case part in a lower-case text. */
  method FindLower(text: string, part: string) returns (found: bool)
    ensures found <==> Contains(text, part)
  {
    var lower := ToLower(text);
    var lowerPart := ToLower(part);
    var r := Find(lower, lowerPart);
    forall at: nat ensures OccursAt(lower, lowerPart, at) <==> StandsAt(text, part, at) {
      LowerOccurrence(text, part, lower, lowerPart, at);
    }
    found := r >= 0;
  }

  method MatchLine(line: string, f: Filter) returns (ok: bool)
    ensures ok <==> Matches(line, f)
  {
    if f.level != "" {
      var found := FindLower(line, "[" + f.level + "]");
      if !found {
        return false;
      }
    }
    if f.tag != "" {
      var found := FindLower(line, f.tag);
      if !found {
        return false;
      }
    }
    return true;
  }

  predicate SameButCase(a: string, b: string) {
    |a| == |b| && forall i | 0 <= i < |a| :: LowerChar(a[i]) == LowerChar(b[i])
  }

  lemma ContainsInAnyCase(text: string, part: string, text': string, part': string)
    requires SameButCase(text, text') && SameButCase(part, part') && Contains(text, part)
    ensures Contains(text', part')
  {
    var at :| 0 <= at <= |text| && StandsAt(text, part, at);
    assert StandsAt(text', part', at);
  }

  /** The case of line, level and tag makes no difference. */
  lemma CaseDoesNotMatter(line: string, f: Filter, line': string, f': Filter)
    requires SameButCase(line, line') && SameButCase(f.level, f'.level) && SameButCase(f.tag, f'.tag)
    ensures Matches(line, f) <==> Matches(line', f')
  {
    var level, level' := "[" + f.level + "]", "[" + f'.level + "]";
    assert SameButCase(level, level');
    if Contains(line, level) {
      ContainsInAnyCase(line, level, line', level');
    }
    if Contains(line', level') {
      ContainsInAnyCase(line', level', line, level);
    }
    if Contains(line, f.tag) {
      ContainsInAnyCase(line, f.tag, line', f'.tag);
    }
    if Contains(line', f'.tag) {
      ContainsInAnyCase(line', f'.tag, line, f.tag);
    }
  }

  // ------------------------------------------------------------ what is collected

  function Matching(name: string, lines: seq<string>, f: Filter): seq<LogItem> {
    if lines == [] then []
    else
      var line := lines[|lines| - 1];
      Matching(name, lines[..|lines| - 1], f) + if Matches(line, f) then [LogItem(name, line)] else []
  }

  /** A scan of everything: all matching lines of the readable files, in order. */
  function Scan(files: seq<LogFile>, f: Filter): seq<LogItem> {
    if files == [] then []
    else
      var last := files[|files| - 1];
      Scan(files[..|files| - 1], f) + if last.readable then Matching(last.name, last.lines, f) else []
  }

  /** The same, but only the last `budget` matching lines of each file. */
  function Tails(files: seq<LogFile>, f: Filter, budget: nat): seq<LogItem> {
    if files == [] then []
    else
      var last := files[|files| - 1];
      Tails(files[..|files| - 1], f, budget)
      + if last.readable then LastN(Matching(last.name, last.lines, f), budget) else []
  }

  /** max(limit * 3, 300), the product being taken modulo 2^64. */
  function TailBudget(limit: size_t): (b: size_t)
    ensures b >= 300
  {
    var tripled := limit * 3 % 0x1_0000_0000_0000_0000;
    if tripled < 300 then 300 else tripled
  }

  /** The files of the directory, sorted by path. */
  method CollectLogs(files: seq<LogFile>, limit: size_t, f: Filter) returns (all: seq<LogItem>)
    ensures all == LastN(Tails(files, f, TailBudget(limit)), limit)
  {
    all := [];
    var budget := TailBudget(limit);
    for i := 0 to |files|
      invariant all == Tails(files[..i], f, budget)
    {
      assert files[..i + 1][..i] == files[..i];
      if files[i].readable {
        var tail := ReadTail(files[i].name, files[i].lines, f, budget);
        all := all + tail;
      }
    }
    assert files[..|files|] == files;
    if |all| > limit {
      all := all[|all| - limit..];
    }
  }

  /** One file's deque: pushed at the back, popped at the front once it is over the budget. */
  method ReadTail(name: string, lines: seq<string>, f: Filter, budget: size_t) returns (tail: seq<LogItem>)
    requires budget > 0
    ensures tail == LastN(Matching(name, lines, f), budget)
  {
    tail := [];
    for k := 0 to |lines|
      invariant tail == LastN(Matching(name, lines[..k], f), budget)
    {
      assert lines[..k + 1][..k] == lines[..k];
      var ok := MatchLine(lines[k], f);
      if ok {
        LastNThen(Matching(name, lines[..k], f), LogItem(name, lines[k]), budget);
        tail := tail + [LogItem(name, lines[k])];
        if |tail| > budget {
          tail := tail[1..];
        }
      }
    }
    assert lines[..|lines|] == lines;
  }

  // ------------------------------------------------------------ bounded tails give the same result

  lemma LastNConcat<T>(a: seq<T>, b: seq<T>, n: nat)
    ensures LastN(a + b, n) == if |b| >= n then LastN(b, n) else LastN(a, n - |b|) + b
  {
  }

  lemma LastNTwice<T>(s: seq<T>, n: nat, budget: nat)
    requires n <= budget
    ensures LastN(LastN(s, budget), n) == LastN(s, n)
  {
  }

  lemma {:induction false} TailsSuffice(files: seq<LogFile>, f: Filter, budget: nat, n: nat)
    requires n <= budget
    ensures LastN(Tails(files, f, budget), n) == LastN(Scan(files, f), n)
  {
    if files != [] {
      var init, last := files[..|files| - 1], files[|files| - 1];
      var found := if last.readable then Matching(last.name, last.lines, f) else [];
      var kept := LastN(found, budget);
      LastNConcat(Scan(init, f), found, n);
      LastNConcat(Tails(init, f, budget), kept, n);
      LastNTwice(found, n, budget);
      if |found| < n {
        TailsSuffice(init, f, budget, n - |found|);
      } else {
        TailsSuffice(init, f, budget, n);
      }
    }
  }

  lemma {:induction false} AllMatch(name: string, line: string, n: nat, f: Filter)
    requires Matches(line, f)
    ensures |Matching(name, seq(n, _ => line), f)| == n
  {
    if n > 0 {
      assert seq(n, _ => line)[..n - 1] == seq(n - 1, _ => line);
      AllMatch(name, line, n - 1, f);
    }
  }

  /** A line the filter matches: its own level and tag. */
  lemma MatchingLine(f: Filter) returns (line: string)
    ensures Matches(line, f)
  {
    var level := "[" + f.level + "]";
    line := level + f.tag;
    assert StandsAt(line, level, 0);
    assert StandsAt(line, f.tag, |level|);
  }

  lemma OneFile(name: string, lines: seq<string>, f: Filter, budget: nat)
    ensures var files := [LogFile(name, true, lines)];
            && Scan(files, f) == Matching(name, lines, f)
            && Tails(files, f, budget) == LastN(Matching(name, lines, f), budget)
  {
    var files := [LogFile(name, true, lines)];
    assert files[..0] == [];
    assert [] + Matching(name, lines, f) == Matching(name, lines, f);
  }

  /** A file with `limit` matching lines shows a smaller budget. */
  lemma ShortBudgetShows(limit: nat, budget: nat, f: Filter) returns (files: seq<LogFile>)
    requires budget < limit
    ensures LastN(Tails(files, f, budget), limit) != LastN(Scan(files, f), limit)
  {
    hide Matching, Tails, Scan, Matches;
    var line := MatchingLine(f);
    var lines := seq(limit, _ => line);
    files := [LogFile("a.log", true, lines)];
    AllMatch("a.log", line, limit, f);
    OneFile("a.log", lines, f, budget);
  }

  /** The result is that of a full scan, whatever the files, exactly when the per-file budget reaches the limit. */
  lemma TailBudgetIsExact(limit: size_t, f: Filter)
    ensures (forall files :: LastN(Tails(files, f, TailBudget(limit)), limit) == LastN(Scan(files, f), limit))
            <==> TailBudget(limit) >= limit
  {
    hide Tails, Scan, TailBudget;
    if TailBudget(limit) >= limit {
      forall files ensures LastN(Tails(files, f, TailBudget(limit)), limit) == LastN(Scan(files, f), limit) {
        TailsSuffice(files, f, TailBudget(limit), limit);
      }
    } else {
      var _ := ShortBudgetShows(limit, TailBudget(limit), f);
    }
  }

  /** The budget falls short of the limit only when three times the limit does not fit 64 bits. */
  lemma BudgetReachesLimit(limit: size_t)
    requires limit * 3 < 0x1_0000_0000_0000_0000
    ensures TailBudget(limit) >= limit
  {
  }

  /** A limit whose triple wraps to 2 leaves a budget of 300. */
  lemma BudgetCanFallShort()
    ensures TailBudget(0x5555_5555_5555_5556) == 300 < 0x5555_5555_5555_5556
  {
  }

  /** The limit of a request: 200, or what the query asks for between 1 and 4999. */
  function RequestLimit(given: bool, v: int): size_t {
    if given && 0 < v < 5000 then v else 200
  }

  /** No request reaches a limit for which the tails are too short: the reply is that of a full scan. */
  lemma RequestsSeeFullScan(files: seq<LogFile>, f: Filter, given: bool, v: int)
    ensures var limit := RequestLimit(given, v);
            LastN(Tails(files, f, TailBudget(limit)), limit) == LastN(Scan(files, f), limit)
  {
    var limit := RequestLimit(given, v);
    BudgetReachesLimit(limit);
    TailsSuffice(files, f, TailBudget(limit), limit);
  }
}
