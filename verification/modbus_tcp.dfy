/**
 Modbus TCP client and register server over a pair of byte pipes.

 A pipe delivers bytes in order, in pieces of any size; recv and send may also fail at any
 time unless the pipe is reliable. While the client waits for a reply, the peer serves one
 request.
 */
module ModbusTcp {
  import opened ModbusFrames

  class Pipe {
    var queue: seq<byte>
    const reliable: bool

    constructor (reliable: bool)
      ensures this.reliable == reliable && queue == []
    {
      this.reliable := reliable;
      queue := [];
    }

    /** recv into buf from `at` on: how many bytes came, 0 for a failure, a timeout or the end. */
    method Recv(buf: array<byte>, at: nat) returns (r: nat)
      requires at < buf.Length
      modifies this, buf
      ensures r <= buf.Length - at && r <= |old(queue)|
      ensures queue == old(queue)[r..]
      ensures buf[..at] == old(buf[..at]) && buf[at..at + r] == old(queue)[..r]
      ensures reliable && old(queue) != [] ==> r > 0
    {
      r :| 0 <= r <= buf.Length - at && r <= |queue| && (reliable && queue != [] ==> r > 0);
      var bytes := queue;
      forall k | 0 <= k < r {
        buf[at + k] := bytes[k];
      }
      queue := queue[r..];
    }

    /** send: how many of the bytes were taken, 0 for a failure. */
    method Send(bytes: seq<byte>) returns (w: nat)
      requires bytes != []
      modifies this
      ensures w <= |bytes| && queue == old(queue) + bytes[..w]
      ensures reliable ==> w > 0
    {
      w :| 0 <= w <= |bytes| && (reliable ==> w > 0);
      queue := queue + bytes[..w];
    }
  }

  method ReadFull(pipe: Pipe, buf: array<byte>) returns (ok: bool)
    modifies pipe, buf
    ensures ok ==> buf.Length <= |old(pipe.queue)|
                   && buf[..] == old(pipe.queue)[..buf.Length] && pipe.queue == old(pipe.queue)[buf.Length..]
    ensures pipe.reliable && buf.Length <= |old(pipe.queue)| ==> ok
  {
    var got := 0;
    while got < buf.Length
      invariant got <= buf.Length && got <= |old(pipe.queue)|
      invariant buf[..got] == old(pipe.queue)[..got] && pipe.queue == old(pipe.queue)[got..]
    {
      var r := pipe.Recv(buf, got);
      if r == 0 {
        return false;
      }
      assert buf[..got + r] == buf[..got] + buf[got..got + r];
      got := got + r;
    }
    return true;
  }

  method WriteFull(pipe: Pipe, bytes: seq<byte>) returns (ok: bool)
    modifies pipe
    ensures ok ==> pipe.queue == old(pipe.queue) + bytes
    ensures !ok ==> exists n | 0 <= n < |bytes| :: pipe.queue == old(pipe.queue) + bytes[..n]
    ensures pipe.reliable ==> ok
  {
    var sent := 0;
    while sent < |bytes|
      invariant sent <= |bytes| && pipe.queue == old(pipe.queue) + bytes[..sent]
    {
      var w := pipe.Send(bytes[sent..]);
      if w == 0 {
        return false;
      }
      assert bytes[..sent] + bytes[sent..][..w] == bytes[..sent + w];
      sent := sent + w;
    }
    assert bytes[..|bytes|] == bytes;
    return true;
  }

  class RegisterBank {
    var regs: seq<word>

    constructor (count: nat)
      ensures regs == seq(count, i => 0)
    {
      regs := seq(count, i => 0);
    }

    method ReadHolding(start: word, quantity: word) returns (ok: bool, values: seq<word>)
      ensures ok <==> Readable(regs, start, quantity)
      ensures ok ==> values == regs[start..start + quantity]
    {
      if quantity == 0 || start + quantity > |regs| {
        return false, [];
      }
      return true, regs[start..start + quantity];
    }

    method WriteSingle(address: word, value: word) returns (ok: bool)
      modifies this
      ensures ok <==> address < |old(regs)|
      ensures regs == if ok then old(regs)[address := value] else old(regs)
    {
      if address >= |regs| {
        return false;
      }
      regs := regs[address := value];
      return true;
    }

    method Set(address: word, value: word)
      modifies this
      ensures regs == if address < |old(regs)| then old(regs)[address := value] else old(regs)
    {
      if address < |regs| {
        regs := regs[address := value];
      }
    }

    method Get(address: word) returns (value: word)
      ensures value == if address < |regs| then regs[address] else 0
    {
      value := if address < |regs| then regs[address] else 0;
    }
  }

  lemma WordsThen(values: seq<word>, i: nat)
    requires i < |values|
    ensures PutWords(values[..i + 1]) == PutWords(values[..i]) + PutBe16(values[i])
  {
    assert values[..i + 1][..i] == values[..i];
  }

  /** The loop that appends the values of a read, high byte first. */
  method AppendWords(head: seq<byte>, values: seq<word>) returns (bytes: seq<byte>)
    ensures bytes == head + PutWords(values)
  {
    bytes := head;
    for i := 0 to |values|
      invariant bytes == head + PutWords(values[..i])
    {
      WordsThen(values, i);
      bytes := bytes + PutBe16(values[i]);
    }
    assert values[..|values|] == values;
  }

  method HandlePdu(bank: RegisterBank, pdu: seq<byte>) returns (ok: bool, response: seq<byte>)
    modifies bank
    ensures (if ok then Answer(response) else Unanswered, bank.regs) == Handle(old(bank.regs), pdu)
  {
    response := [];
    if |pdu| < 1 {
      return false, response;
    }
    var fc := pdu[0];
    if fc == READ_HOLDING {
      if |pdu| < 5 {
        return false, response;
      }
      var start, quantity := Be16(pdu[1], pdu[2]), Be16(pdu[3], pdu[4]);
      if quantity < 1 || quantity > 125 {
        return true, [Flagged(fc), ILLEGAL_VALUE];
      }
      var found, values := bank.ReadHolding(start, quantity);
      if !found {
        return true, [Flagged(fc), ILLEGAL_ADDRESS];
      }
      response := [fc, (|values| * 2) % 256];
      response := AppendWords(response, values);
      return true, response;
    }
    if fc == WRITE_SINGLE {
      if |pdu| < 5 {
        return false, response;
      }
      var address, value := Be16(pdu[1], pdu[2]), Be16(pdu[3], pdu[4]);
      var found := bank.WriteSingle(address, value);
      if !found {
        return true, [Flagged(fc), ILLEGAL_ADDRESS];
      }
      return true, pdu[..5];
    }
    return true, [Flagged(fc), ILLEGAL_FUNCTION];
  }

  /** A failed call closes the connection; it may have left a broken-off reply and an applied write. */
  method ServeOneRequest(inp: Pipe, out: Pipe, bank: RegisterBank) returns (ok: bool)
    requires inp != out
    modifies inp, out, bank
    ensures var s := Serve(old(bank.regs), old(inp.queue));
            && (ok ==> s.Answered? && inp.queue == s.rest
                       && out.queue == old(out.queue) + s.reply && bank.regs == s.regs)
            && (!ok ==> bank.regs == old(bank.regs) || (s.Answered? && bank.regs == s.regs))
            && (!ok ==> out.queue == old(out.queue) ||
                        (s.Answered? && exists n | 0 <= n < |s.reply| :: out.queue == old(out.queue) + s.reply[..n]))
            && (inp.reliable && out.reliable ==> (ok <==> s.Answered?))
            && (s == Dropped ==> bank.regs == old(bank.regs))
  {
    ghost var before, stream := bank.regs, inp.queue;
    var mbap := new byte[7];
    ok := ReadFull(inp, mbap);
    if !ok {
      return false;
    }
    var proto, length := Be16(mbap[2], mbap[3]), Be16(mbap[4], mbap[5]);
    if proto != 0 || length < 2 || length > 260 {
      return false;
    }
    var unit, pdu := mbap[6], new byte[length - 1];
    ok := ReadFull(inp, pdu);
    if !ok {
      return false;
    }
    assert Parse(stream, 260) == Whole(mbap[..4], unit, pdu[..], inp.queue);
    var answered, response := HandlePdu(bank, pdu[..]);
    if !answered {
      return false;
    }
    AnswersAreShort(before, pdu[..]);
    ok := WriteFull(out, Frame(mbap[..4], unit, response));
  }
}
