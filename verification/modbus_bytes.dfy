/** The Modbus exchange in bytes, as sections 6.3, 6.6 and 7 of the application protocol give it. */
module ModbusBytes {
  import opened ModbusFrames

  /** The frame of a request: twelve bytes, function code 3 to read and 6 to write. */
  lemma RequestBytes(tid: word, unit: byte, a: word, b: word)
    ensures Request(tid, unit, READ_HOLDING, a, b) ==
            [tid / 256, tid % 256, 0, 0, 0, 6, unit, 3, a / 256, a % 256, b / 256, b % 256]
    ensures Request(tid, unit, WRITE_SINGLE, a, b) ==
            [tid / 256, tid % 256, 0, 0, 0, 6, unit, 6, a / 256, a % 256, b / 256, b % 256]
  {
  }

  // ------------------------------------------------------------ the server's answers

  /** The registers, each high byte first. */
  predicate BigEndian(bytes: seq<byte>, values: seq<word>) {
    && |bytes| == 2 * |values|
    && forall i | 0 <= i < |values| :: values[i] == (bytes[2 * i] as int) * 256 + bytes[2 * i + 1]
  }

  lemma PutWordsIsBigEndian(values: seq<word>)
    ensures BigEndian(PutWords(values), values)
  {
    hide PutWords;
    forall i | 0 <= i < |values|
      ensures values[i] == (PutWords(values)[2 * i] as int) * 256 + PutWords(values)[2 * i + 1]
    {
      WordAt(values, i);
    }
  }

  /** Reading q registers from a: their values, exception 3 unless q is 1..125, exception 2 if they are not there. */
  lemma ReadAnswer(regs: seq<word>, a: word, q: word, more: seq<byte>)
    ensures var (answer, after) := Handle(regs, [3, a / 256, a % 256, q / 256, q % 256] + more);
            && after == regs && answer.Answer?
            && if q < 1 || q > 125 then answer.pdu == [0x83, 3]
               else if a + q > |regs| then answer.pdu == [0x83, 2]
               else answer.pdu[..2] == [3, 2 * q] && BigEndian(answer.pdu[2..], regs[a..a + q])
  {
    hide PutWords, BigEndian;
    var pdu := [3, a / 256, a % 256, q / 256, q % 256] + more;
    assert Be16(pdu[1], pdu[2]) == a && Be16(pdu[3], pdu[4]) == q;
    if 1 <= q <= 125 && a + q <= |regs| {
      var values := regs[a..a + q];
      PutWordsIsBigEndian(values);
      assert ([3, 2 * q] + PutWords(values))[2..] == PutWords(values);
    }
  }

  /** Writing v to register a: the request comes back and that register changes, or exception 2. */
  lemma WriteAnswer(regs: seq<word>, a: word, v: word, more: seq<byte>)
    ensures Handle(regs, [6, a / 256, a % 256, v / 256, v % 256] + more) ==
            if a < |regs| then (Answer([6, a / 256, a % 256, v / 256, v % 256]), regs[a := v])
            else (Answer([0x86, 2]), regs)
  {
    var pdu := [6, a / 256, a % 256, v / 256, v % 256] + more;
    assert Be16(pdu[1], pdu[2]) == a && Be16(pdu[3], pdu[4]) == v;
    assert pdu[..5] == [6, a / 256, a % 256, v / 256, v % 256];
  }

  /** Any other function code gets exception 1, with its top bit set. */
  lemma OtherAnswer(regs: seq<word>, pdu: seq<byte>)
    requires pdu != [] && pdu[0] != 3 && pdu[0] != 6
    ensures Handle(regs, pdu) == (Answer([pdu[0] % 128 + 128, 1]), regs)
  {
  }

  /** A PDU that is empty, or too short for its function code, is not answered. */
  lemma ShortIsUnanswered(regs: seq<word>, pdu: seq<byte>)
    ensures Handle(regs, pdu).0.Unanswered? <==> pdu == [] || (pdu[0] in [3, 6] && |pdu| < 5)
    ensures Handle(regs, pdu).0.Unanswered? ==> Handle(regs, pdu).1 == regs
  {
  }

  // ------------------------------------------------------------ frames on the stream

  /** A stream that begins with a whole frame: header, unit, PDU. */
  predicate BeginsWith(stream: seq<byte>, head: seq<byte>, unit: byte, pdu: seq<byte>, rest: seq<byte>) {
    && |head| == 4 && |pdu| < 65535
    && stream == head + [(1 + |pdu|) / 256, (1 + |pdu|) % 256, unit] + pdu + rest
  }

  lemma BeginsWithIsWhole(
    stream: seq<byte>, head: seq<byte>, unit: byte, pdu: seq<byte>, rest: seq<byte>, maxLength: nat)
    requires BeginsWith(stream, head, unit, pdu, rest)
    ensures Parse(stream, maxLength) ==
            if 2 <= 1 + |pdu| <= maxLength then Whole(head, unit, pdu, rest) else Lost
  {
    assert stream[4] == (1 + |pdu|) / 256 && stream[5] == (1 + |pdu|) % 256;
    assert stream[..4] == head && stream[6] == unit;
    assert stream[7..7 + |pdu|] == pdu && stream[7 + |pdu|..] == rest;
  }

  /** A frame of protocol 0 with 1..259 PDU bytes is answered under its own header and unit; any other is dropped. */
  lemma ServerReplies(
    regs: seq<word>, stream: seq<byte>, head: seq<byte>, unit: byte, pdu: seq<byte>, rest: seq<byte>)
    requires BeginsWith(stream, head, unit, pdu, rest)
    ensures var (answer, after) := Handle(regs, pdu);
            Serve(regs, stream) ==
            if 1 <= |pdu| <= 259 && head[2] == 0 && head[3] == 0 && answer.Answer?
            then Answered(head + [0, 1 + |answer.pdu|, unit] + answer.pdu, after, rest)
            else Dropped
  {
    hide Handle;
    BeginsWithIsWhole(stream, head, unit, pdu, rest, 260);
    AnswersAreShort(regs, pdu);
  }

  /** A stream that ends inside the frame its length announces is not served. */
  lemma ServerWaitsForWholeFrame(regs: seq<word>, stream: seq<byte>)
    requires |stream| < 7 || |stream| < 6 + (stream[4] as int) * 256 + stream[5]
    ensures Serve(regs, stream) == Dropped
  {
  }

  // ------------------------------------------------------------ the client

  /** What the client makes of any reply to a read of q registers. */
  lemma ClientReads(
    stream: seq<byte>, head: seq<byte>, from: byte, pdu: seq<byte>, rest: seq<byte>, unit: byte, q: word)
    requires BeginsWith(stream, head, from, pdu, rest) && 1 <= q <= 125
    ensures var r := ReceiveRead(stream, unit, q);
            && (r == Closed <==> pdu == [] || |pdu| > 259 || from != unit)
            && (r != Closed ==> r.rest == rest)
            && (r.Accepted? <==> r != Closed && |pdu| >= 2 + 2 * q && pdu[0] == 3 && pdu[1] == 2 * q)
            && (r.Accepted? ==> BigEndian(pdu[2..2 + 2 * q], r.values))
  {
    BeginsWithIsWhole(stream, head, from, pdu, rest, 260);
    if ReceiveRead(stream, unit, q).Accepted? {
      var body := pdu[2..2 + 2 * q];
      forall i | 0 <= i < q
        ensures GetWords(pdu[2..], q)[i] == (body[2 * i] as int) * 256 + body[2 * i + 1]
      {
        GetWordAt(pdu[2..], q, i);
      }
    }
  }

  /** And of any reply to a write. */
  lemma ClientAcknowledges(
    stream: seq<byte>, head: seq<byte>, from: byte, pdu: seq<byte>, rest: seq<byte>, unit: byte)
    requires BeginsWith(stream, head, from, pdu, rest)
    ensures var r := ReceiveWrite(stream, unit);
            && (r == Closed <==> pdu == [] || from != unit)
            && (r != Closed ==> r.rest == rest)
            && (r.Accepted? <==> r != Closed && |pdu| >= 5 && pdu[0] == 6)
  {
    BeginsWithIsWhole(stream, head, from, pdu, rest, 65535);
  }
}
