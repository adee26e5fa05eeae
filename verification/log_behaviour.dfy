/** What a log request gets to see, in terms of the characters, lines and files themselves. */
module LogBehaviour {
  import opened Windows
  import opened LogTail

  const UPPER := "ABCDEFGHIJKLMNOPQRSTUVWXYZ"
  const LOWER := "abcdefghijklmnopqrstuvwxyz"

  /** The letters A to Z become a to z, and every other character stays as it is. */
  lemma LettersBecomeLower(c: char)
    ensures forall k | 0 <= k < 26 :: LowerChar(UPPER[k]) == LOWER[k]
    ensures c !in UPPER ==> LowerChar(c) == c
  {
    if 'A' <= c <= 'Z' {
      assert UPPER[c as int - 'A' as int] == c;
    }
  }

  /** The same character, or the same letter in the other case. */
  predicate SameLetter(a: char, b: char) {
    || a == b
    || ('A' <= a <= 'Z' && b as int - 'a' as int == a as int - 'A' as int)
    || ('A' <= b <= 'Z' && a as int - 'a' as int == b as int - 'A' as int)
  }

  lemma SameLetterIsSameLower(a: char, b: char)
    ensures LowerChar(a) == LowerChar(b) <==> SameLetter(a, b)
  {
  }

  predicate SameText(a: string, b: string) {
    |a| == |b| && forall i | 0 <= i < |a| :: SameLetter(a[i], b[i])
  }

  /** The line is a part in front, the text in any case, and a part behind. */
  ghost predicate Holds(line: string, text: string) {
    exists before, found, after :: line == before + found + after && SameText(found, text)
  }

  lemma ContainsIsHolds(line: string, text: string)
    ensures Contains(line, text) <==> Holds(line, text)
  {
    if Contains(line, text) {
      var at :| 0 <= at <= |line| && StandsAt(line, text, at);
      var found := line[at..at + |text|];
      forall i | 0 <= i < |found| ensures SameLetter(found[i], text[i]) {
        SameLetterIsSameLower(found[i], text[i]);
        assert found[i] == line[at + i];
      }
      assert line == line[..at] + found + line[at + |text|..];
      assert SameText(found, text);
    }
    if Holds(line, text) {
      var before, found, after :| line == before + found + after && SameText(found, text);
      forall k | 0 <= k < |text| ensures LowerChar(line[|before| + k]) == LowerChar(text[k]) {
        SameLetterIsSameLower(found[k], text[k]);
        assert line[|before| + k] == found[k];
      }
      assert StandsAt(line, text, |before|);
    }
  }

  /** A line matches when it holds the level in brackets and the tag; what is not asked for is not looked at. */
  lemma MatchesIsHolds(line: string, f: Filter)
    ensures Matches(line, f) <==>
            (f.level == "" || Holds(line, "[" + f.level + "]")) && (f.tag == "" || Holds(line, f.tag))
  {
    hide Contains, Holds;
    ContainsIsHolds(line, "[" + f.level + "]");
    ContainsIsHolds(line, f.tag);
  }

  /** A request for level INFO finds every line that holds "[info]". */
  lemma InfoIsFound(before: string, after: string)
    ensures Matches(before + "[info]" + after, Filter("INFO", ""))
  {
    var line := before + "[info]" + after;
    forall k | 0 <= k < 6 ensures SameLetter("[info]"[k], "[INFO]"[k]) {
      SameLetterIsSameLower("[info]"[k], "[INFO]"[k]);
    }
    assert SameText("[info]", "[INFO]");
    assert "[" + "INFO" + "]" == "[INFO]";
    assert Holds(line, "[INFO]");
    MatchesIsHolds(line, Filter("INFO", ""));
  }

  /** A line of some level has brackets: the bare word does not do. */
  lemma BracketsAreNeeded(line: string, f: Filter)
    requires f.level != "" && Matches(line, f)
    ensures '[' in line && ']' in line
  {
    hide SameText;
    MatchesIsHolds(line, f);
    var text := "[" + f.level + "]";
    var before, found, after :| line == before + found + after && SameText(found, text);
    EndsOf(found, text);
    assert line[|before|] == found[0] && line[|before| + |found| - 1] == found[|found| - 1];
  }

  lemma EndsOf(found: string, text: string)
    requires SameText(found, text) && |text| > 0 && text[0] == '[' && text[|text| - 1] == ']'
    ensures |found| > 0 && found[0] == '[' && found[|found| - 1] == ']'
  {
    assert SameLetter(found[0], text[0]) && SameLetter(found[|found| - 1], text[|text| - 1]);
  }

  // ------------------------------------------------------------ the order of what is shown

  /** File by file and line by line, in the order given: a matching line once, any other not at all. */
  lemma {:induction false} MatchingInOrder(name: string, a: seq<string>, b: seq<string>, f: Filter)
    ensures Matching(name, a + b, f) == Matching(name, a, f) + Matching(name, b, f)
    ensures |a| == 1 ==> Matching(name, a, f) == if Matches(a[0], f) then [LogItem(name, a[0])] else []
  {
    if |a| == 1 {
      assert a[..0] == [];
      assert Matching(name, a[..0], f) == [];
    }
    if b == [] {
      assert a + b == a;
    } else {
      var last := |b| - 1;
      assert (a + b)[..|a + b| - 1] == a + b[..last];
      MatchingInOrder(name, a, b[..last], f);
    }
  }

  lemma {:induction false} ScanInOrder(a: seq<LogFile>, b: seq<LogFile>, f: Filter)
    ensures Scan(a + b, f) == Scan(a, f) + Scan(b, f)
    ensures |a| == 1 ==> Scan(a, f) == if a[0].readable then Matching(a[0].name, a[0].lines, f) else []
  {
    hide Matching;
    if |a| == 1 {
      assert a[..0] == [];
      assert Scan(a[..0], f) == [];
    }
    if b == [] {
      assert a + b == a;
    } else {
      var last := |b| - 1;
      assert (a + b)[..|a + b| - 1] == a + b[..last];
      ScanInOrder(a, b[..last], f);
    }
  }

  /** The limit of a request: what it asks for from 1 to 4999, and 200 otherwise. */
  lemma LimitOfRequest(v: int)
    ensures RequestLimit(false, v) == 200
    ensures RequestLimit(true, v) == (if 1 <= v <= 4999 then v else 200)
  {
  }

  /** The answer to a request is the end of the full scan: all of it, or the last items the limit allows. */
  lemma AnswerIsEndOfScan(files: seq<LogFile>, f: Filter, given: bool, v: int) returns (skipped: seq<LogItem>)
    ensures var limit := if given && 1 <= v <= 4999 then v else 200;
            var answer := LastN(Tails(files, f, TailBudget(RequestLimit(given, v))), RequestLimit(given, v));
            && Scan(files, f) == skipped + answer
            && |answer| == if |Scan(files, f)| < limit then |Scan(files, f)| else limit
  {
    hide Scan, Tails, TailBudget;
    RequestsSeeFullScan(files, f, given, v);
    LimitOfRequest(v);
    var limit := RequestLimit(given, v);
    var all := Scan(files, f);
    skipped := if |all| < limit then [] else all[..|all| - limit];
  }
}
