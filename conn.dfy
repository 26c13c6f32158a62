/**
 * The connection object of telnet.go. Its fields are the inbound buffer, the
 * payload buffer read by the application, and the log of byte strings handed
 * to the transport's Write. Each method states its new state through the
 * functions of module Pump, where the properties of the engine are proved.
 */
module Connection {
  import opened Telnet
  import Pump

  class Conn {
    var bIn: seq<byte>          // received from the transport, not yet classified
    var bOut: seq<byte>         // payload ready for the application
    var sent: seq<seq<byte>>    // every buffer handed to the transport, in order

    function Snapshot(): Pump.State
      reads this
    {
      Pump.State(bIn, bOut, sent)
    }

    /** The buffers as process() creates them: both empty, nothing sent yet. */
    constructor ()
      ensures Snapshot() == Pump.State([], [], [])
    {
      bIn, bOut, sent := [], [], [];
    }

    /**
     * bytes.Buffer.Read on the payload buffer: copies min(size, |bOut|) bytes
     * and reports end of file only when the buffer is empty and size > 0.
     */
    method Read(size: nat) returns (data: seq<byte>, eof: bool)
      modifies this`bOut
      ensures old(bOut) == data + bOut
      ensures |data| == if size < |old(bOut)| then size else |old(bOut)|
      ensures eof <==> old(bOut) == [] && size > 0
    {
      var n := if size < |bOut| then size else |bOut|;
      data, bOut := bOut[..n], bOut[n..];
      eof := data == [] && size > 0;
    }

    /** One iteration of the body of the process loop. */
    method Step()
      modifies this
      ensures Snapshot() == Pump.Step(old(Snapshot()))
    {
      if |bIn| > 0 {
        var i := IndexByte(bIn, IAC);
        if i == -1 {
          bOut, bIn := bOut + bIn, [];
        } else {
          bOut, bIn := bOut + bIn[..i], bIn[i..];
          ProcessIAC();
        }
      }
    }

    /** Hold a lone byte, collapse an escaped IAC, otherwise parse the command. */
    method ProcessIAC()
      modifies this
      ensures Snapshot() == Pump.ProcessIac(old(Snapshot()))
    {
      if |bIn| <= 1 {
        return;
      }
      if bIn[0] == 255 && bIn[1] == 255 {
        bOut, bIn := bOut + [bIn[0]], bIn[2..];
        return;
      }
      ParseCommand();
    }

    /**
     * Dispatch on the command byte. The source passes the window bIn.Bytes()
     * to the handlers; here they read bIn itself, which holds the same bytes.
     */
    method ParseCommand()
      requires |bIn| >= 2
      modifies this`bIn, this`sent
      ensures Snapshot() == Pump.ParseCommand(old(Snapshot()))
    {
      var cmd := bIn[1];
      if cmd == DONT {
        Dont();
      } else if cmd == DO {
        Do();
      } else if cmd == WONT {
        Wont();
      } else if cmd == WILL {
        Will();
      }
    }

    /** WILL: accept Suppress Go Ahead, refuse everything else. */
    method Will()
      modifies this`bIn, this`sent
      ensures Snapshot() == Pump.Handle(WILL, old(Snapshot()))
    {
      if |bIn| < 3 {
        return;
      }
      var opt := bIn[2];
      if opt == SGA {
        sent := sent + [[255, DO, SGA]];
      } else {
        sent := sent + [[255, DONT, opt]];
      }
      bIn := bIn[3..];
    }

    /** DONT: always comply with WONT. */
    method Dont()
      modifies this`bIn, this`sent
      ensures Snapshot() == Pump.Handle(DONT, old(Snapshot()))
    {
      if |bIn| < 3 {
        return;
      }
      var opt := bIn[2];
      sent := sent + [[255, WONT, opt]];
      bIn := bIn[3..];
    }

    /** DO: accept Binary Transmission, refuse everything else. */
    method Do()
      modifies this`bIn, this`sent
      ensures Snapshot() == Pump.Handle(DO, old(Snapshot()))
    {
      if |bIn| < 3 {
        return;
      }
      var opt := bIn[2];
      if opt == BIN {
        sent := sent + [[255, WILL, BIN]];
      } else {
        sent := sent + [[255, WONT, opt]];
      }
      bIn := bIn[3..];
    }

    /** WONT: consume silently. */
    method Wont()
      modifies this`bIn, this`sent
      ensures Snapshot() == Pump.Handle(WONT, old(Snapshot()))
    {
      if |bIn| < 3 {
        return;
      }
      bIn := bIn[3..];
    }

    /**
     * Escape every 0xFF by doubling it and hand the result to the transport in
     * one write. The count returned is the transport's, that is the escaped
     * length. The index steps past the inserted copy, as the documentation of
     * Write promises; the loop as written does not (module LiteralWrite).
     */
    method Write(b: seq<byte>) returns (n: int)
      modifies this`sent
      ensures sent == old(sent) + [Escape(b)]
      ensures n == |b| + CountIac(b)
    {
      var buf := b;
      var i := 0;
      ghost var k := 0;  // bytes of b already visited
      while i < |buf|
        invariant 0 <= k <= |b|
        invariant i == |Escape(b[..k])|
        invariant buf == Escape(b[..k]) + b[k..]
        invariant sent == old(sent)
        decreases |b| - k
      {
        EscapeLoopStep(b, k, buf, i);
        if buf[i] == IAC {
          buf := buf[..i] + [IAC] + buf[i..];
          i := i + 1;
        }
        i := i + 1;
        k := k + 1;
      }
      assert b[..k] == b && b[k..] == [];
      assert buf == Escape(b);
      sent := sent + [buf];
      n := |buf|;
    }
  }

  /**
   * One iteration of the corrected escaping loop: the byte under the index is
   * the next byte of the caller's input, and doubling it (when it is 0xFF) and
   * stepping past it leaves one more input byte escaped.
   */
  lemma EscapeLoopStep(b: seq<byte>, k: nat, buf: seq<byte>, i: nat)
    requires k < |b| && i == |Escape(b[..k])| && buf == Escape(b[..k]) + b[k..]
    ensures i < |buf| && buf[i] == b[k]
    ensures b[k] == IAC ==>
      buf[..i] + [IAC] + buf[i..] == Escape(b[..k + 1]) + b[k + 1..] &&
      i + 2 == |Escape(b[..k + 1])|
    ensures b[k] != IAC ==>
      buf == Escape(b[..k + 1]) + b[k + 1..] && i + 1 == |Escape(b[..k + 1])|
  {
    var e, x, r := Escape(b[..k]), b[k], b[k + 1..];
    assert b[k..] == [x] + r;
    assert b[..k + 1] == b[..k] + [x];
    EscapeSnoc(b[..k], x);
    SplitAtHead(e, x, r, buf);
    if x == IAC {
      DoubleAtHead(e, x, r);
    } else {
      assert e + ([x] + r) == (e + [x]) + r;
    }
  }

  /** buf is e followed by x and r: the position |e| holds x and splits buf there. */
  lemma SplitAtHead(e: seq<byte>, x: byte, r: seq<byte>, buf: seq<byte>)
    requires buf == e + ([x] + r)
    ensures |e| < |buf| && buf[|e|] == x && buf[..|e|] == e && buf[|e|..] == [x] + r
  {
  }

  /** Inserting a second copy of x in front of x, with e before and r after. */
  lemma DoubleAtHead(e: seq<byte>, x: byte, r: seq<byte>)
    ensures e + [x] + ([x] + r) == (e + [x, x]) + r
  {
  }

  /** A client relying on the contracts alone, with the exchanges the tests expect. */
  method Exchanges()
  {
    var c := new Conn();
    c.bIn := [IAC, IAC, 23];
    c.ProcessIAC();
    Pump.EscapedIac([23], [], []);
    assert c.bOut == [IAC] && c.bIn == [23] && c.sent == [];

    c.bIn := [IAC, DONT, ECHO];
    c.ProcessIAC();
    Pump.ExactConsumption(Pump.State([IAC, DONT, ECHO], [IAC], []));
    assert c.sent == [[IAC, WONT, ECHO]] && c.bIn == [];

    var n := c.Write([7, IAC]);
    assert Escape([7, IAC]) == [7, IAC, IAC];
    assert c.sent == [[IAC, WONT, ECHO], [7, IAC, IAC]] && n == 3;

    var data, eof := c.Read(4);
    assert data == [IAC] && !eof && c.bOut == [];
    data, eof := c.Read(4);
    assert data == [] && eof;
  }
}
