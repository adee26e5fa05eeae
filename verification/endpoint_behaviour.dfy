/** Endpoint URIs as they are written: every text and what becomes of it. */
module EndpointBehaviour {
  import opened Endpoints

  // ------------------------------------------------------------ the four kinds of text

  /** A unix URI names the path after its prefix, which must not be empty. */
  lemma UnixPath(path: string)
    ensures Parse("unix://" + path) == (if path == "" then InvalidArg else Ok, Endpoint(Unix, "", 0, path))
  {
    assert ("unix://" + path)[..7] == "unix://" && ("unix://" + path)[7..] == path;
  }

  /** What is left of a text whose host and port are refused: the scheme alone. */
  lemma OnlySchemeOnFailure(rest: string, ep: Endpoint)
    ensures HostPort(rest, ep).0 == Ok || HostPort(rest, ep) == (InvalidArg, ep)
  {
  }

  /** A tcp URI gives a host and a port exactly when its rest denotes them, and otherwise only its scheme. */
  lemma TcpText(rest: string, host: string, port: nat)
    ensures Parse("tcp://" + rest) == (Ok, Endpoint(Tcp, host, port, "")) <==> Denotes(rest, host, port)
    ensures Parse("tcp://" + rest).0 != Ok ==> Parse("tcp://" + rest) == (InvalidArg, Endpoint(Tcp, "", 0, ""))
    ensures Parse("tcp://" + rest).0 == Ok ==>
              exists h, p :: Denotes(rest, h, p) && Parse("tcp://" + rest) == (Ok, Endpoint(Tcp, h, p, ""))
  {
    var ep := Endpoint(Tcp, "", 0, "");
    TcpPrefix(rest);
    AcceptsExactly(rest, ep, host, port);
    OnlySchemeOnFailure(rest, ep);
    if HostPort(rest, ep).0 == Ok {
      SplitsBack(rest, ep);
      OnlyHostAndPort(rest, ep);
    }
  }

  lemma UdpText(rest: string, host: string, port: nat)
    ensures Parse("udp://" + rest) == (Ok, Endpoint(Udp, host, port, "")) <==> Denotes(rest, host, port)
    ensures Parse("udp://" + rest).0 != Ok ==> Parse("udp://" + rest) == (InvalidArg, Endpoint(Udp, "", 0, ""))
    ensures Parse("udp://" + rest).0 == Ok ==>
              exists h, p :: Denotes(rest, h, p) && Parse("udp://" + rest) == (Ok, Endpoint(Udp, h, p, ""))
  {
    var ep := Endpoint(Udp, "", 0, "");
    UdpPrefix(rest);
    AcceptsExactly(rest, ep, host, port);
    OnlySchemeOnFailure(rest, ep);
    if HostPort(rest, ep).0 == Ok {
      SplitsBack(rest, ep);
      OnlyHostAndPort(rest, ep);
    }
  }

  lemma OnlyHostAndPort(rest: string, ep: Endpoint)
    ensures var r := HostPort(rest, ep).1; r == ep.(host := r.host, port := r.port)
  {
  }

  lemma TcpPrefix(rest: string)
    ensures Parse("tcp://" + rest) == HostPort(rest, Endpoint(Tcp, "", 0, ""))
  {
    var uri := "tcp://" + rest;
    assert uri[0] == 't' && uri[..6] == "tcp://" && uri[6..] == rest;
  }

  lemma UdpPrefix(rest: string)
    ensures Parse("udp://" + rest) == HostPort(rest, Endpoint(Udp, "", 0, ""))
  {
    var uri := "udp://" + rest;
    assert uri[1] == 'd' && uri[..6] == "udp://" && uri[6..] == rest;
  }

  /** Any other text, the empty one apart, is not supported, and only such a text. */
  lemma OtherText(uri: string)
    ensures Parse(uri) == (Unsupported, Endpoint(Unknown, "", 0, "")) <==>
            uri != "" && !("unix://" <= uri) && !("tcp://" <= uri) && !("udp://" <= uri)
    ensures Parse("") == (InvalidArg, Endpoint(Unknown, "", 0, ""))
  {
    hide HostPort;
    if "tcp://" <= uri || "udp://" <= uri {
      var tcp, udp := Endpoint(Tcp, "", 0, ""), Endpoint(Udp, "", 0, "");
      OnlySchemeOnFailure(uri[6..], tcp);
      OnlySchemeOnFailure(uri[6..], udp);
    }
  }

  // ------------------------------------------------------------ the port

  lemma DigitValues()
    ensures Value("0") == 0 && Value("1") == 1 && Value("2") == 2 && Value("3") == 3 && Value("4") == 4
    ensures Value("5") == 5 && Value("6") == 6 && Value("7") == 7 && Value("8") == 8 && Value("9") == 9
  {
  }

  function TenTo(n: nat): nat {
    if n == 0 then 1 else 10 * TenTo(n - 1)
  }

  lemma PlaceStep(a: nat, place: nat, b: nat, d: nat)
    ensures 10 * (a * place + b) + d == a * (10 * place) + (10 * b + d)
  {
  }

  /** Digits count by their place. */
  lemma {:induction false} ValueByPlace(a: string, b: string)
    requires AllDigits(a) && AllDigits(b)
    ensures AllDigits(a + b) && Value(a + b) == Value(a) * TenTo(|b|) + Value(b)
  {
    hide Value;
    if b == "" {
      assert a + b == a && Value("") == 0 by { ValueOfNothing(); }
    } else {
      var init, c := b[..|b| - 1], b[|b| - 1];
      ValueByPlace(a, init);
      ValueThen(a + init, c);
      ValueThen(init, c);
      assert a + init + [c] == a + b && init + [c] == b;
      PlaceStep(Value(a), TenTo(|init|), Value(init), c as int - '0' as int);
    }
  }

  lemma ValueOfNothing()
    ensures Value("") == 0
  {
  }

  /** 65535 is the last port, and zeros in front of a number make no difference. */
  lemma LastPort(zeros: string, port: nat)
    requires forall i | 0 <= i < |zeros| :: zeros[i] == '0'
    ensures IsPort(zeros + "65535", port) <==> port == 65535
    ensures !IsPort(zeros + "65536", port)
  {
    DigitValues();
    ValueThen("6", '5');
    assert "6" + ['5'] == "65";
    ValueThen("65", '5');
    assert "65" + ['5'] == "655";
    ValueThen("655", '3');
    assert "655" + ['3'] == "6553";
    ValueThen("6553", '5');
    assert "6553" + ['5'] == "65535";
    ValueThen("6553", '6');
    assert "6553" + ['6'] == "65536";
    ZerosInFront(zeros, "65535");
    ZerosInFront(zeros, "65536");
  }

  lemma {:induction false} ZerosInFront(zeros: string, digits: string)
    requires AllDigits(digits) && forall i | 0 <= i < |zeros| :: zeros[i] == '0'
    ensures AllDigits(zeros + digits) && Value(zeros + digits) == Value(digits)
  {
    ValueOfZeros(zeros);
    ValueByPlace(zeros, digits);
  }

  lemma {:induction false} ValueOfZeros(zeros: string)
    requires forall i | 0 <= i < |zeros| :: zeros[i] == '0'
    ensures AllDigits(zeros) && Value(zeros) == 0
  {
    if zeros != "" {
      ValueOfZeros(zeros[..|zeros| - 1]);
    }
  }
}
