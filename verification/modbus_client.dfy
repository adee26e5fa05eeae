/** The Modbus TCP client, talking to a register bank at the other end of its connection. */
module ModbusClient {
  import opened ModbusFrames
  import opened ModbusTcp

  class TcpClient {
    var connected: bool
    var nextTid: word
    const up: Pipe
    const down: Pipe

    /** A client that has just connected. */
    constructor (reliable: bool)
      ensures connected && nextTid == 1 && Clean() && fresh(up) && fresh(down)
      ensures up.reliable == reliable && down.reliable == reliable
    {
      connected, nextTid := true, 1;
      up := new Pipe(reliable);
      down := new Pipe(reliable);
      new;
    }

    /** Nothing is in flight unless the connection is closed. */
    ghost predicate Clean()
      reads this, up, down
    {
      up != down && (connected ==> up.queue == [] && down.queue == [])
    }

    predicate Reliable() {
      up.reliable && down.reliable
    }

    method Close()
      modifies `connected
      ensures !connected
    {
      connected := false;
    }

    /** Sends one request and lets the peer serve it: the first n bytes of its answer are on their way. */
    method Ask(unit: byte, fc: byte, a: word, b: word, peer: RegisterBank) returns (ok: bool, ghost n: nat)
      requires connected && Clean()
      requires Serve(peer.regs, Request(nextTid, unit, fc, a, b)).Answered?
      modifies `nextTid, up, down, peer
      ensures nextTid == (old(nextTid) + 1) % 65536
      ensures !ok ==> peer.regs == old(peer.regs)
      ensures var s := Serve(old(peer.regs), Request(old(nextTid), unit, fc, a, b));
              && n <= |s.reply|
              && (ok ==> down.queue == s.reply[..n])
              && (ok && n == |s.reply| ==> up.queue == s.rest && peer.regs == s.regs)
              && (peer.regs == old(peer.regs) || peer.regs == s.regs)
              && (Reliable() ==> ok && n == |s.reply|)
    {
      hide Serve, Request;
      ghost var s := Serve(peer.regs, Request(nextTid, unit, fc, a, b));
      var request := Request(nextTid, unit, fc, a, b);
      nextTid := (nextTid + 1) % 65536;
      n := 0;
      ok := WriteFull(up, request);
      if !ok {
        return;
      }
      assert up.queue == request;
      var served := ServeOneRequest(up, down, peer);
      if served {
        n := |s.reply|;
      } else if down.queue != [] {
        n :| 0 <= n < |s.reply| && down.queue == [] + s.reply[..n];
      }
    }

    /** Reads one frame; fails on a bad length, another unit's frame, or a broken connection. */
    method ReceiveFrame(unit: byte, maxLength: nat) returns (ok: bool, pdu: seq<byte>)
      requires connected
      modifies `connected, down
      ensures connected == ok
      ensures var f := Parse(old(down.queue), maxLength);
              && (ok ==> f.Whole? && f.unit == unit && pdu == f.pdu && down.queue == f.rest)
              && (down.reliable ==> (ok <==> f.Whole? && f.unit == unit))
    {
      ghost var stream := down.queue;
      pdu := [];
      var mbap := new byte[7];
      ok := ReadFull(down, mbap);
      if !ok {
        Close();
        return;
      }
      var length := Be16(mbap[4], mbap[5]);
      if length < 2 || length > maxLength || mbap[6] != unit {
        Close();
        return false, [];
      }
      var buf := new byte[length - 1];
      ok := ReadFull(down, buf);
      if !ok {
        Close();
        return;
      }
      pdu := buf[..];
      assert Parse(stream, maxLength) == Whole(mbap[..4], unit, pdu, down.queue);
    }

    /** The receiving half of a read, whatever the peer sent. */
    method ReceiveRegisters(unit: byte, quantity: word) returns (ok: bool, out: seq<word>)
      requires connected && 1 <= quantity <= 125
      modifies `connected, down
      ensures var r := ReceiveRead(old(down.queue), unit, quantity);
              && (ok ==> connected && r == Accepted(out, down.queue))
              && (connected && !ok ==> r == Refused(down.queue))
              && (down.reliable ==> (connected <==> r != Closed) && (ok <==> r.Accepted?))
    {
      hide Parse;
      out := [];
      var pdu;
      ok, pdu := ReceiveFrame(unit, 260);
      if !ok {
        return;
      }
      if |pdu| < 2 || pdu[0] >= 0x80 || pdu[0] != READ_HOLDING {
        return false, out;
      }
      var byteCount := pdu[1];
      if byteCount != quantity * 2 || |pdu| < 2 + byteCount {
        return false, out;
      }
      for i := 0 to quantity
        invariant out == GetWords(pdu[2..], quantity)[..i]
      {
        out := out + [Be16(pdu[2 + i * 2], pdu[2 + i * 2 + 1])];
      }
    }

    /** The receiving half of a write, whatever the peer sent. */
    method ReceiveAcknowledgement(unit: byte) returns (ok: bool)
      requires connected
      modifies `connected, down
      ensures var r := ReceiveWrite(old(down.queue), unit);
              && (ok ==> connected && r == Accepted([], down.queue))
              && (connected && !ok ==> r == Refused(down.queue))
              && (down.reliable ==> (connected <==> r != Closed) && (ok <==> r.Accepted?))
    {
      hide Parse;
      var pdu;
      ok, pdu := ReceiveFrame(unit, 65535);
      if !ok {
        return;
      }
      ok := |pdu| >= 5 && pdu[0] == WRITE_SINGLE;
    }

    /** Success means exactly the registers asked for; a legal request that fails has closed the connection. */
    method ReadHoldingRegisters(unit: byte, start: word, quantity: word, peer: RegisterBank)
      returns (ok: bool, out: seq<word>)
      requires Clean()
      modifies `connected, `nextTid, up, down, peer
      ensures Clean() && peer.regs == old(peer.regs)
      ensures ok ==> connected && 1 <= quantity <= 125 && start + quantity <= |peer.regs|
      ensures ok ==> out == peer.regs[start..start + quantity]
      ensures 1 <= quantity <= 125 && start + quantity <= |peer.regs| && !ok ==> !connected
      ensures Reliable() && old(connected) ==>
                connected && (ok <==> 1 <= quantity <= 125 && start + quantity <= |peer.regs|)
    {
      hide Serve, Request, ReceiveRead, ReceiveWrite;
      out := [];
      if !connected || quantity == 0 || quantity > 125 {
        return false, out;
      }
      ReadRoundTrip(peer.regs, nextTid, unit, start, quantity);
      ghost var s := Serve(peer.regs, Request(nextTid, unit, READ_HOLDING, start, quantity));
      ghost var n;
      ok, n := Ask(unit, READ_HOLDING, start, quantity, peer);
      if !ok {
        Close();
        return;
      }
      assert s.reply[..|s.reply|] == s.reply;
      if n < |s.reply| {
        CutReplyCloses(old(peer.regs), Request(old(nextTid), unit, READ_HOLDING, start, quantity), n, unit, quantity);
      }
      ok, out := ReceiveRegisters(unit, quantity);
    }

    /** Success means the register is written; a failure on a broken connection may still have written it. */
    method WriteSingleRegister(unit: byte, address: word, value: word, peer: RegisterBank) returns (ok: bool)
      requires Clean()
      modifies `connected, `nextTid, up, down, peer
      ensures Clean()
      ensures peer.regs == old(peer.regs) ||
              (address < |old(peer.regs)| && peer.regs == old(peer.regs)[address := value])
      ensures ok ==> connected && address < |old(peer.regs)| && peer.regs == old(peer.regs)[address := value]
      ensures address < |old(peer.regs)| && !ok ==> !connected
      ensures Reliable() && old(connected) ==> connected && (ok <==> address < |old(peer.regs)|)
    {
      hide Serve, Request, ReceiveRead, ReceiveWrite;
      if !connected {
        return false;
      }
      WriteRoundTrip(peer.regs, nextTid, unit, address, value);
      ghost var s := Serve(peer.regs, Request(nextTid, unit, WRITE_SINGLE, address, value));
      ghost var n;
      ok, n := Ask(unit, WRITE_SINGLE, address, value, peer);
      if !ok {
        Close();
        return;
      }
      assert s.reply[..|s.reply|] == s.reply;
      if n < |s.reply| {
        CutReplyCloses(old(peer.regs), Request(old(nextTid), unit, WRITE_SINGLE, address, value), n, unit, 1);
      }
      ok := ReceiveAcknowledgement(unit);
    }
  }
}
