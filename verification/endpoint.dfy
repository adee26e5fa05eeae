/** Parsing endpoint URIs: unix://path, tcp://host:port and udp://host:port. */
module Endpoints {

  datatype Scheme = Unix | Tcp | Udp | Unknown

  datatype Endpoint = Endpoint(scheme: Scheme, host: string, port: nat, path: string)

  datatype Result = Ok | InvalidArg | Unsupported

  const BLANK := Endpoint(Unknown, "", 0, "")

  predicate StartsWith(s: string, p: string) {
    |s| >= |p| && s[..|p|] == p
  }

  /** std::string_view::find: the first position, or the length when there is none. */
  function Find(s: string, c: char): (p: nat)
    ensures p <= |s| && (p < |s| ==> s[p] == c)
    ensures forall k | 0 <= k < p :: s[k] != c
  {
    if s == [] || s[0] == c then 0 else 1 + Find(s[1..], c)
  }

  /** std::string_view::rfind: the last position, or the length when there is none. */
  function FindLast(s: string, c: char): (p: nat)
    ensures p <= |s| && (p < |s| ==> s[p] == c)
    ensures forall k | (if p == |s| then 0 else p + 1) <= k < |s| :: s[k] != c
  {
    if s == [] then 0
    else if s[|s| - 1] == c then |s| - 1
    else
      var p := FindLast(s[..|s| - 1], c);
      if p == |s| - 1 then |s| else p
  }

  predicate IsDigit(c: char) {
    '0' <= c <= '9'
  }

  predicate AllDigits(s: string) {
    forall i | 0 <= i < |s| :: IsDigit(s[i])
  }

  /** The number a digit string denotes, leading zeros included. */
  function Value(digits: string): nat
    requires AllDigits(digits)
  {
    if digits == "" then 0
    else 10 * Value(digits[..|digits| - 1]) + (digits[|digits| - 1] as int - '0' as int)
  }

  lemma {:induction false} ValueGrows(digits: string, n: nat)
    requires AllDigits(digits) && n <= |digits|
    ensures Value(digits[..n]) <= Value(digits)
  {
    if n == |digits| {
      assert digits[..n] == digits;
    } else {
      var init := digits[..|digits| - 1];
      assert digits[..n] == init[..n];
      ValueGrows(init, n);
    }
  }

  /** The digit loop: the early reject at the first prefix over 65535 loses nothing. */
  method ParsePort(text: string) returns (ok: bool, port: nat)
    ensures ok <==> AllDigits(text) && Value(text) <= 65535
    ensures ok ==> port == Value(text)
  {
    port := 0;
    for i := 0 to |text|
      invariant AllDigits(text[..i]) && port == Value(text[..i]) <= 65535
    {
      var c := text[i];
      if c < '0' || c > '9' {
        assert !IsDigit(text[i]);
        return false, 0;
      }
      assert text[..i + 1][..i] == text[..i];
      port := port * 10 + (c as int - '0' as int);
      if port > 65535 {
        if AllDigits(text) {
          ValueGrows(text, i + 1);
        }
        return false, 0;
      }
    }
    assert text[..|text|] == text;
    return true, port;
  }

  // ------------------------------------------------------------ what the texts mean

  predicate IsPort(text: string, port: nat) {
    text != "" && AllDigits(text) && Value(text) == port <= 65535
  }

  /** The text is `[host]:port` with no ']' in the host, or `host:port` with a host not starting with '['. */
  predicate DenotesWith(rest: string, host: string, port: nat, digits: string) {
    && host != "" && IsPort(digits, port)
    && ((rest == "[" + host + "]:" + digits && ']' !in host) || (rest == host + ":" + digits && host[0] != '['))
  }

  ghost predicate Denotes(rest: string, host: string, port: nat) {
    exists digits :: DenotesWith(rest, host, port, digits)
  }

  predicate IsUnsigned(text: string) {
    text != "" && AllDigits(text) && Value(text) <= 65535
  }

  /** What the host-port parser makes of the text; the endpoint keeps its scheme on a failure. */
  function HostPort(rest: string, ep: Endpoint): (Result, Endpoint) {
    var bracket := rest != "" && rest[0] == '[';
    var at := if bracket then Find(rest, ']') else FindLast(rest, ':');
    if bracket && (at == |rest| || at + 2 > |rest| || rest[at + 1] != ':') then (InvalidArg, ep)
    else if !bracket && at == |rest| then (InvalidArg, ep)
    else
      var host := if bracket then rest[1..at] else rest[..at];
      var port := if bracket then rest[at + 2..] else rest[at + 1..];
      if host == "" || !IsUnsigned(port) then (InvalidArg, ep) else (Ok, ep.(host := host, port := Value(port)))
  }

  method ParseHostPort(rest: string, ep0: Endpoint) returns (result: Result, ep: Endpoint)
    ensures (result, ep) == HostPort(rest, ep0)
  {
    ep := ep0;
    var host, text;
    if rest != "" && rest[0] == '[' {
      var rb := Find(rest, ']');
      if rb == |rest| || rb + 2 > |rest| || rest[rb + 1] != ':' {
        return InvalidArg, ep;
      }
      host, text := rest[1..rb], rest[rb + 2..];
    } else {
      var pos := FindLast(rest, ':');
      if pos == |rest| {
        return InvalidArg, ep;
      }
      host, text := rest[..pos], rest[pos + 1..];
    }
    if host == "" || text == "" {
      return InvalidArg, ep;
    }
    var ok, port := ParsePort(text);
    if !ok {
      return InvalidArg, ep;
    }
    ep := ep.(host := host, port := port);
    return Ok, ep;
  }

  const UNIX := "unix://"
  const TCP := "tcp://"
  const UDP := "udp://"

  function Parse(uri: string): (Result, Endpoint) {
    if uri == "" then (InvalidArg, BLANK)
    else if StartsWith(uri, UNIX) then
      (if uri[7..] == "" then InvalidArg else Ok, BLANK.(scheme := Unix, path := uri[7..]))
    else if StartsWith(uri, TCP) then HostPort(uri[6..], BLANK.(scheme := Tcp))
    else if StartsWith(uri, UDP) then HostPort(uri[6..], BLANK.(scheme := Udp))
    else (Unsupported, BLANK)
  }

  method ParseEndpoint(uri: string) returns (result: Result, out: Endpoint)
    ensures (result, out) == Parse(uri)
  {
    out := BLANK;
    if uri == "" {
      return InvalidArg, out;
    }
    if StartsWith(uri, UNIX) {
      out := out.(scheme := Unix);
      var rest := uri[|UNIX|..];
      out := out.(path := rest);
      return if out.path == "" then InvalidArg else Ok, out;
    }
    if StartsWith(uri, TCP) {
      out := out.(scheme := Tcp);
      result, out := ParseHostPort(uri[|TCP|..], out);
      return;
    }
    if StartsWith(uri, UDP) {
      out := out.(scheme := Udp);
      result, out := ParseHostPort(uri[|UDP|..], out);
      return;
    }
    out := out.(scheme := Unknown);
    return Unsupported, out;
  }

  // ------------------------------------------------------------ the parser accepts exactly the grammar

  lemma BracketedParses(host: string, digits: string, port: nat, ep: Endpoint)
    requires host != "" && ']' !in host && IsPort(digits, port)
    ensures HostPort("[" + host + "]:" + digits, ep) == (Ok, ep.(host := host, port := port))
  {
    var rest := "[" + host + "]:" + digits;
    forall k | 0 <= k <= |host| ensures rest[k] != ']' {
      assert k > 0 ==> rest[k] == host[k - 1];
    }
    assert rest[|host| + 1] == ']';
    assert Find(rest, ']') == |host| + 1;
    assert rest[1..|host| + 1] == host && rest[|host| + 3..] == digits;
  }

  lemma PlainParses(host: string, digits: string, port: nat, ep: Endpoint)
    requires host != "" && host[0] != '[' && IsPort(digits, port)
    ensures HostPort(host + ":" + digits, ep) == (Ok, ep.(host := host, port := port))
  {
    var rest := host + ":" + digits;
    forall k | |host| < k < |rest| ensures rest[k] != ':' {
      assert rest[k] == digits[k - |host| - 1];
    }
    assert rest[|host|] == ':';
    assert FindLast(rest, ':') == |host|;
    assert rest[..|host|] == host && rest[|host| + 1..] == digits;
  }

  /** A text is accepted with a host and port exactly when it denotes them. */
  lemma AcceptsExactly(rest: string, ep: Endpoint, host: string, port: nat)
    ensures HostPort(rest, ep) == (Ok, ep.(host := host, port := port)) <==> Denotes(rest, host, port)
  {
    if Denotes(rest, host, port) {
      var digits :| DenotesWith(rest, host, port, digits);
      if rest == "[" + host + "]:" + digits && ']' !in host {
        BracketedParses(host, digits, port, ep);
      } else {
        PlainParses(host, digits, port, ep);
      }
    }
    if HostPort(rest, ep) == (Ok, ep.(host := host, port := port)) {
      SplitsBack(rest, ep);
    }
  }

  lemma SplitsBack(rest: string, ep: Endpoint)
    requires HostPort(rest, ep).0 == Ok
    ensures var r := HostPort(rest, ep).1; Denotes(rest, r.host, r.port)
  {
    hide Value, AllDigits;
    var r := HostPort(rest, ep).1;
    if rest[0] == '[' {
      var at := Find(rest, ']');
      BracketSplit(rest, at);
      assert DenotesWith(rest, r.host, r.port, rest[at + 2..]);
    } else {
      var at := FindLast(rest, ':');
      assert rest == rest[..at] + ":" + rest[at + 1..];
      assert DenotesWith(rest, r.host, r.port, rest[at + 1..]);
    }
  }

  lemma BracketSplit(rest: string, at: nat)
    requires 1 <= at && at + 2 <= |rest| && rest[0] == '[' && rest[at] == ']' && rest[at + 1] == ':'
    ensures rest == "[" + rest[1..at] + "]:" + rest[at + 2..]
  {
  }

  // ------------------------------------------------------------ printing and parsing back

  function Digit(d: nat): (c: char)
    requires d < 10
    ensures IsDigit(c) && c as int - '0' as int == d
  {
    (d + '0' as int) as char
  }

  lemma ValueThen(digits: string, c: char)
    requires AllDigits(digits) && IsDigit(c)
    ensures AllDigits(digits + [c]) && Value(digits + [c]) == 10 * Value(digits) + (c as int - '0' as int)
  {
    assert (digits + [c])[..|digits|] == digits;
  }

  function Decimal(n: nat): (s: string)
    ensures s != "" && AllDigits(s) && Value(s) == n
  {
    var front := if n < 10 then "" else Decimal(n / 10);
    ValueThen(front, Digit(n % 10));
    front + [Digit(n % 10)]
  }

  lemma TcpIsStripped(text: string)
    ensures Parse(TCP + text) == HostPort(text, BLANK.(scheme := Tcp))
  {
    assert (TCP + text)[6..] == text && (TCP + text)[0] == 't';
  }

  lemma UdpIsStripped(text: string)
    ensures Parse(UDP + text) == HostPort(text, BLANK.(scheme := Udp))
  {
    assert (UDP + text)[6..] == text && (UDP + text)[1] == 'd';
  }

  /** Printing an endpoint, bracketed or plain, and parsing it gives it back. */
  lemma RoundTrip(scheme: Scheme, host: string, port: nat, bracketed: bool)
    requires scheme == Tcp || scheme == Udp
    requires host != "" && port <= 65535
    requires if bracketed then ']' !in host else host[0] != '['
    ensures var text := (if bracketed then "[" + host + "]" else host) + ":" + Decimal(port);
            Parse((if scheme == Tcp then TCP else UDP) + text) == (Ok, Endpoint(scheme, host, port, ""))
  {
    hide HostPort, Value, AllDigits;
    var text := (if bracketed then "[" + host + "]" else host) + ":" + Decimal(port);
    TcpIsStripped(text);
    UdpIsStripped(text);
    assert Value(Decimal(port)) == port;
    var ep := BLANK.(scheme := scheme);
    if bracketed {
      assert text == "[" + host + "]:" + Decimal(port);
      BracketedParses(host, Decimal(port), port, ep);
    } else {
      PlainParses(host, Decimal(port), port, ep);
    }
  }
}
