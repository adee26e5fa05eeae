/** Modbus TCP frames and the register server as operations on values: function codes 0x03 and 0x06. */
module ModbusFrames {
  type byte = x: int | 0 <= x < 256
  type word = x: int | 0 <= x < 65536

  const READ_HOLDING: byte := 0x03
  const WRITE_SINGLE: byte := 0x06
  const ILLEGAL_FUNCTION: byte := 0x01
  const ILLEGAL_ADDRESS: byte := 0x02
  const ILLEGAL_VALUE: byte := 0x03

  function Be16(hi: byte, lo: byte): word {
    hi * 256 + lo
  }

  function PutBe16(v: word): seq<byte> {
    [v / 256, v % 256]
  }

  /** fc | 0x80 on a byte. */
  function Flagged(fc: byte): byte {
    if fc < 0x80 then fc + 0x80 else fc
  }

  // ------------------------------------------------------------ register values

  function PutWords(values: seq<word>): (bytes: seq<byte>)
    ensures |bytes| == 2 * |values|
  {
    if values == [] then [] else PutWords(values[..|values| - 1]) + PutBe16(values[|values| - 1])
  }

  function GetWords(bytes: seq<byte>, n: nat): seq<word>
    requires 2 * n <= |bytes|
  {
    seq(n, i requires 0 <= i < n => Be16(bytes[2 * i], bytes[2 * i + 1]))
  }

  lemma {:induction false} WordAt(values: seq<word>, i: nat)
    requires i < |values|
    ensures PutWords(values)[2 * i] == values[i] / 256
    ensures PutWords(values)[2 * i + 1] == values[i] % 256
  {
    var last := |values| - 1;
    if i < last {
      WordAt(values[..last], i);
    }
  }

  lemma WordsRoundTrip(values: seq<word>)
    ensures GetWords(PutWords(values), |values|) == values
  {
    hide *;
    var bytes := PutWords(values);
    var back := GetWords(bytes, |values|);
    GetWordsLength(bytes, |values|);
    forall i | 0 <= i < |values| ensures back[i] == values[i] {
      WordAt(values, i);
      GetWordAt(bytes, |values|, i);
      WordOfBytes(values[i]);
    }
  }

  lemma GetWordsLength(bytes: seq<byte>, n: nat)
    requires 2 * n <= |bytes|
    ensures |GetWords(bytes, n)| == n
  {
  }

  lemma GetWordAt(bytes: seq<byte>, n: nat, i: nat)
    requires i < n && 2 * n <= |bytes|
    ensures |GetWords(bytes, n)| == n && GetWords(bytes, n)[i] == Be16(bytes[2 * i], bytes[2 * i + 1])
  {
  }

  lemma WordOfBytes(v: word)
    ensures Be16(v / 256, v % 256) == v
  {
  }

  // ------------------------------------------------------------ frames

  /** MBAP header (transaction and protocol id, length, unit) and PDU. */
  function Frame(head: seq<byte>, unit: byte, pdu: seq<byte>): (f: seq<byte>)
    requires |head| == 4 && |pdu| < 65535
    ensures |f| == 7 + |pdu|
  {
    head + PutBe16(1 + |pdu|) + [unit] + pdu
  }

  function RequestPdu(fc: byte, a: word, b: word): seq<byte> {
    [fc] + PutBe16(a) + PutBe16(b)
  }

  function Head(tid: word): seq<byte> {
    PutBe16(tid) + PutBe16(0)
  }

  /** What the client sends: always 12 bytes. */
  function Request(tid: word, unit: byte, fc: byte, a: word, b: word): (r: seq<byte>)
    ensures |r| == 12
  {
    Frame(Head(tid), unit, RequestPdu(fc, a, b))
  }

  datatype Incoming = Lost | Whole(head: seq<byte>, unit: byte, pdu: seq<byte>, rest: seq<byte>)

  /** The first frame of a stream: its length field must be 2..maxLength and all its bytes present. */
  function Parse(stream: seq<byte>, maxLength: nat): Incoming {
    if |stream| < 7 then Lost
    else
      var length := Be16(stream[4], stream[5]);
      if length < 2 || length > maxLength || |stream| < 6 + length then Lost
      else Whole(stream[..4], stream[6], stream[7..6 + length], stream[6 + length..])
  }

  lemma FrameIsWhole(head: seq<byte>, unit: byte, pdu: seq<byte>, rest: seq<byte>, maxLength: nat)
    requires |head| == 4 && 1 <= |pdu| < 65535 && 1 + |pdu| <= maxLength
    ensures Parse(Frame(head, unit, pdu) + rest, maxLength) == Whole(head, unit, pdu, rest)
  {
    var f := Frame(head, unit, pdu);
    var stream := f + rest;
    assert stream[4] == (1 + |pdu|) / 256 && stream[5] == (1 + |pdu|) % 256;
    assert stream[..4] == head;
    assert stream[7..7 + |pdu|] == pdu;
    assert stream[7 + |pdu|..] == rest;
  }

  /** No proper prefix of a frame is taken for a frame. */
  lemma PrefixIsLost(head: seq<byte>, unit: byte, pdu: seq<byte>, n: nat, maxLength: nat)
    requires |head| == 4 && 1 <= |pdu| < 65535 && n < |Frame(head, unit, pdu)|
    ensures Parse(Frame(head, unit, pdu)[..n], maxLength) == Lost
  {
    var f := Frame(head, unit, pdu);
    if n >= 7 {
      assert f[..n][4] == f[4] == (1 + |pdu|) / 256;
      assert f[..n][5] == f[5] == (1 + |pdu|) % 256;
    }
  }

  // ------------------------------------------------------------ the server

  datatype Handled = Unanswered | Answer(pdu: seq<byte>)

  function Refusal(fc: byte, code: byte): Handled {
    Answer([Flagged(fc), code])
  }

  predicate Readable(regs: seq<word>, start: word, quantity: word) {
    quantity > 0 && start + quantity <= |regs|
  }

  /** The answer to one PDU and the registers afterwards. */
  function Handle(regs: seq<word>, pdu: seq<byte>): (r: (Handled, seq<word>))
    ensures |r.1| == |regs|
  {
    if |pdu| < 1 then (Unanswered, regs)
    else if pdu[0] == READ_HOLDING then
      if |pdu| < 5 then (Unanswered, regs)
      else
        var start, quantity := Be16(pdu[1], pdu[2]), Be16(pdu[3], pdu[4]);
        if quantity < 1 || quantity > 125 then (Refusal(pdu[0], ILLEGAL_VALUE), regs)
        else if !Readable(regs, start, quantity) then (Refusal(pdu[0], ILLEGAL_ADDRESS), regs)
        else (Answer([pdu[0], 2 * quantity] + PutWords(regs[start..start + quantity])), regs)
    else if pdu[0] == WRITE_SINGLE then
      if |pdu| < 5 then (Unanswered, regs)
      else
        var address, value := Be16(pdu[1], pdu[2]), Be16(pdu[3], pdu[4]);
        if address >= |regs| then (Refusal(pdu[0], ILLEGAL_ADDRESS), regs)
        else (Answer(pdu[..5]), regs[address := value])
    else (Refusal(pdu[0], ILLEGAL_FUNCTION), regs)
  }

  datatype Served = Dropped | Answered(reply: seq<byte>, regs: seq<word>, rest: seq<byte>)

  lemma AnswersAreShort(regs: seq<word>, pdu: seq<byte>)
    ensures Handle(regs, pdu).0.Answer? ==> 2 <= |Handle(regs, pdu).0.pdu| <= 252
  {
  }

  /** One request taken from a stream: protocol id 0, length 2..260. */
  function Serve(regs: seq<word>, stream: seq<byte>): (r: Served)
    ensures r.Answered? ==> |r.reply| >= 9
  {
    var f := Parse(stream, 260);
    if f.Lost? || f.head[2] != 0 || f.head[3] != 0 then Dropped
    else
      var (answer, after) := Handle(regs, f.pdu);
      AnswersAreShort(regs, f.pdu);
      if answer.Unanswered? then Dropped else Answered(Frame(f.head, f.unit, answer.pdu), after, f.rest)
  }

  // ------------------------------------------------------------ the client's view of a reply

  datatype Received = Closed | Refused(rest: seq<byte>) | Accepted(values: seq<word>, rest: seq<byte>)

  /** What the client makes of a reply to a read. The transaction id is not compared. */
  function ReceiveRead(stream: seq<byte>, unit: byte, quantity: word): Received
    requires 1 <= quantity <= 125
  {
    var f := Parse(stream, 260);
    if f.Lost? || f.unit != unit then Closed
    else if |f.pdu| < 2 || f.pdu[0] >= 0x80 || f.pdu[0] != READ_HOLDING then Refused(f.rest)
    else if f.pdu[1] != quantity * 2 || |f.pdu| < 2 + f.pdu[1] then Refused(f.rest)
    else Accepted(GetWords(f.pdu[2..], quantity), f.rest)
  }

  /** What the client makes of a reply to a write: the echoed address and value are not compared. */
  function ReceiveWrite(stream: seq<byte>, unit: byte): Received {
    var f := Parse(stream, 65535);
    if f.Lost? || f.unit != unit then Closed
    else if |f.pdu| >= 5 && f.pdu[0] == WRITE_SINGLE then Accepted([], f.rest)
    else Refused(f.rest)
  }

  // ------------------------------------------------------------ a request and its reply

  lemma RequestIsParsed(tid: word, unit: byte, fc: byte, a: word, b: word)
    ensures var f := Parse(Request(tid, unit, fc, a, b), 260);
            && f == Whole(Head(tid), unit, RequestPdu(fc, a, b), [])
            && f.head[2] == 0 && f.head[3] == 0
            && Be16(f.pdu[1], f.pdu[2]) == a && Be16(f.pdu[3], f.pdu[4]) == b
  {
    var request := Request(tid, unit, fc, a, b);
    assert request + [] == request;
    FrameIsWhole(Head(tid), unit, RequestPdu(fc, a, b), [], 260);
  }

  /** Reading: the values are the registers asked for, exactly when these exist; otherwise the client is told. */
  lemma ReadRoundTrip(regs: seq<word>, tid: word, unit: byte, start: word, quantity: word)
    requires 1 <= quantity <= 125
    ensures var s := Serve(regs, Request(tid, unit, READ_HOLDING, start, quantity));
            && s.Answered? && s.regs == regs && s.rest == []
            && ReceiveRead(s.reply, unit, quantity) ==
               if start + quantity <= |regs| then Accepted(regs[start..start + quantity], []) else Refused([])
  {
    hide PutWords, GetWords, Parse, Frame;
    var request := RequestPdu(READ_HOLDING, start, quantity);
    RequestIsParsed(tid, unit, READ_HOLDING, start, quantity);
    AnswersAreShort(regs, request);
    var answer := Handle(regs, request).0;
    var reply := Frame(Head(tid), unit, answer.pdu);
    assert reply + [] == reply;
    FrameIsWhole(Head(tid), unit, answer.pdu, [], 260);
    if Readable(regs, start, quantity) {
      var values := regs[start..start + quantity];
      assert ([READ_HOLDING, 2 * quantity] + PutWords(values))[2..] == PutWords(values);
      WordsRoundTrip(values);
    }
  }

  /** Writing: the register is set and the request echoed, exactly when the address exists. */
  lemma WriteRoundTrip(regs: seq<word>, tid: word, unit: byte, address: word, value: word)
    ensures var s := Serve(regs, Request(tid, unit, WRITE_SINGLE, address, value));
            && s.Answered? && s.rest == []
            && s.regs == (if address < |regs| then regs[address := value] else regs)
            && ReceiveWrite(s.reply, unit) == (if address < |regs| then Accepted([], []) else Refused([]))
  {
    var request := RequestPdu(WRITE_SINGLE, address, value);
    RequestIsParsed(tid, unit, WRITE_SINGLE, address, value);
    AnswersAreShort(regs, request);
    var answer := Handle(regs, request).0;
    var reply := Frame(Head(tid), unit, answer.pdu);
    assert reply + [] == reply;
    FrameIsWhole(Head(tid), unit, answer.pdu, [], 65535);
  }

  /** A reply that breaks off is never taken for an answer. */
  lemma CutReplyCloses(regs: seq<word>, stream: seq<byte>, n: nat, unit: byte, quantity: word)
    requires Serve(regs, stream).Answered? && n < |Serve(regs, stream).reply| && 1 <= quantity <= 125
    ensures ReceiveRead(Serve(regs, stream).reply[..n], unit, quantity) == Closed
    ensures ReceiveWrite(Serve(regs, stream).reply[..n], unit) == Closed
  {
    var f := Parse(stream, 260);
    var answer := Handle(regs, f.pdu).0;
    AnswersAreShort(regs, f.pdu);
    PrefixIsLost(f.head, f.unit, answer.pdu, n, 260);
    PrefixIsLost(f.head, f.unit, answer.pdu, n, 65535);
  }
}
