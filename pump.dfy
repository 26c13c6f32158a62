/**
 * The inbound side of a connection as a pure state machine. A State holds the
 * bytes received from the transport and not yet classified (bIn), the payload
 * ready for the application (bOut) and the log of byte strings handed to the
 * transport (sent). Step is one iteration of the pump loop; Decode is an
 * independent byte-by-byte reading of a fully available input, and the lemmas
 * show that pumping delivers exactly what Decode reads.
 */
module Pump {
  import opened Wrappers
  import opened Telnet

  datatype State = State(bIn: seq<byte>, bOut: seq<byte>, sent: seq<seq<byte>>)

  /** The transport writes a reply causes: one message, or none. */
  function Sends(r: Option<seq<byte>>): seq<seq<byte>> {
    if r.Some? then [r.value] else []
  }

  /**
   * The will/dont/do/wont handlers: wait while the option byte is missing,
   * otherwise answer from the table and consume IAC, command and option.
   */
  function Handle(cmd: byte, s: State): State {
    if |s.bIn| < 3 then s
    else s.(bIn := s.bIn[3..], sent := s.sent + Sends(Response(cmd, s.bIn[2])))
  }

  /** parseCommand: dispatch on the command byte; other commands are left alone. */
  function ParseCommand(s: State): State
    requires |s.bIn| >= 2
  {
    if IsNegotiation(s.bIn[1]) then Handle(s.bIn[1], s) else s
  }

  /** processIAC: hold a single byte, collapse IAC IAC, otherwise parse a command. */
  function ProcessIac(s: State): State {
    if |s.bIn| <= 1 then s
    else if s.bIn[0] == IAC && s.bIn[1] == IAC then
      s.(bIn := s.bIn[2..], bOut := s.bOut + [IAC])
    else ParseCommand(s)
  }

  /**
   * One iteration of the pump loop: forward everything when no IAC is present,
   * otherwise forward the bytes before the first IAC and process the command.
   */
  function Step(s: State): (t: State)
    ensures s.bOut <= t.bOut && s.sent <= t.sent
    ensures |t.bIn| <= |s.bIn| && t.bIn == s.bIn[|s.bIn| - |t.bIn|..]
  {
    if |s.bIn| == 0 then s
    else
      var i := IndexByte(s.bIn, IAC);
      if i == -1 then s.(bIn := [], bOut := s.bOut + s.bIn)
      else
        var s' := s.(bIn := s.bIn[i..], bOut := s.bOut + s.bIn[..i]);
        ProcessIacDropsHead(s');
        ProcessIac(s')
  }

  /** processIAC drops nothing, two or three bytes from the head of bIn and only appends to bOut and sent. */
  lemma ProcessIacDropsHead(s: State)
    ensures var t := ProcessIac(s);
      exists k :: 0 <= k <= |s.bIn| && t.bIn == s.bIn[k..]
    ensures s.bOut <= ProcessIac(s).bOut && s.sent <= ProcessIac(s).sent
  {
    var t := ProcessIac(s);
    if t.bIn == s.bIn {
      assert t.bIn == s.bIn[0..];
    } else if |s.bIn| >= 2 && s.bIn[0] == IAC && s.bIn[1] == IAC {
      assert t.bIn == s.bIn[2..];
    } else {
      assert t.bIn == s.bIn[3..];
    }
  }

  /** n iterations of the pump loop with no new input arriving. */
  function Run(s: State, n: nat): State
    decreases n
  {
    if n == 0 then s else Run(Step(s), n - 1)
  }

  // The three situations in which the pump holds an IAC at the head of bIn.

  /** A lone trailing IAC: the next byte has not arrived. */
  predicate LoneIac(b: seq<byte>) {
    |b| == 1 && b[0] == IAC
  }

  /** IAC and a negotiation command whose option byte has not arrived. */
  predicate IncompleteNegotiation(b: seq<byte>) {
    |b| == 2 && b[0] == IAC && IsNegotiation(b[1])
  }

  /** IAC and a command no handler is registered for (NOP, go ahead, sub-negotiation, ...). */
  predicate UnhandledCommand(b: seq<byte>) {
    |b| >= 2 && b[0] == IAC && b[1] != IAC && !IsNegotiation(b[1])
  }

  predicate Stalled(b: seq<byte>) {
    LoneIac(b) || IncompleteNegotiation(b) || UnhandledCommand(b)
  }

  /** What a fully available input yields: payload, replies, and the bytes held back. */
  datatype Decoded = Decoded(payload: seq<byte>, replies: seq<seq<byte>>, rest: seq<byte>)

  /**
   * Reference reading of the wire format, one unit at a time: a data byte, an
   * escaped IAC IAC, or a complete negotiation; decoding stops at the first
   * command it cannot complete.
   */
  function Decode(s: seq<byte>): Decoded
    decreases |s|
  {
    if s == [] then Decoded([], [], [])
    else if s[0] != IAC then
      var d := Decode(s[1..]);
      Decoded([s[0]] + d.payload, d.replies, d.rest)
    else if |s| >= 2 && s[1] == IAC then
      var d := Decode(s[2..]);
      Decoded([IAC] + d.payload, d.replies, d.rest)
    else if |s| >= 3 && IsNegotiation(s[1]) then
      var d := Decode(s[3..]);
      Decoded(d.payload, Sends(Response(s[1], s[2])) + d.replies, d.rest)
    else Decoded([], [], s)
  }

  /** Decoding stops only at the end of the input or at a held command. */
  lemma {:induction false} DecodeStops(s: seq<byte>)
    ensures var d := Decode(s);
      (d.rest == [] || Stalled(d.rest)) && |d.rest| <= |s|
    decreases |s|
  {
    if s != [] {
      if s[0] != IAC {
        DecodeStops(s[1..]);
      } else if |s| >= 2 && s[1] == IAC {
        DecodeStops(s[2..]);
      } else if |s| >= 3 && IsNegotiation(s[1]) {
        DecodeStops(s[3..]);
      }
    }
  }

  /** The state the pump reaches once it has classified everything it can. */
  function Outcome(s: State): State {
    var d := Decode(s.bIn);
    State(d.rest, s.bOut + d.payload, s.sent + d.replies)
  }

  // ----- processIAC and the handlers -----

  lemma EscapedIac(rest: seq<byte>, out: seq<byte>, sent: seq<seq<byte>>)
    ensures ProcessIac(State([IAC, IAC] + rest, out, sent)) == State(rest, out + [IAC], sent)
  {
    assert ([IAC, IAC] + rest)[2..] == rest;
  }

  lemma TooFewBytes(s: State)
    requires |s.bIn| <= 1
    ensures ProcessIac(s) == s
  {
  }

  lemma IncompleteNegotiationHeld(s: State)
    requires IncompleteNegotiation(s.bIn)
    ensures ProcessIac(s) == s && Step(s) == s
  {
    assert s.bIn[0..] == s.bIn;
  }

  lemma UnrecognisedCommand(s: State)
    requires UnhandledCommand(s.bIn)
    ensures ProcessIac(s) == s && Step(s) == s
  {
    assert s.bIn[0..] == s.bIn;
  }

  /** IAC NOP, followed by anything, is held: the no-operation command has no handler. */
  lemma NopHeld(rest: seq<byte>, out: seq<byte>, sent: seq<seq<byte>>)
    ensures var s := State([IAC, NOP] + rest, out, sent);
      UnhandledCommand(s.bIn) && Step(s) == s
  {
    var s := State([IAC, NOP] + rest, out, sent);
    UnrecognisedCommand(s);
  }

  /**
   * A complete negotiation consumes exactly three bytes, leaves the payload
   * alone and sends at most one three-byte message that starts with IAC.
   */
  lemma ExactConsumption(s: State)
    requires |s.bIn| >= 3 && s.bIn[0] == IAC && IsNegotiation(s.bIn[1])
    ensures var t := ProcessIac(s);
      && t.bIn == s.bIn[3..] && t.bOut == s.bOut
      && t.sent == s.sent + Sends(Response(s.bIn[1], s.bIn[2]))
      && |t.sent| <= |s.sent| + 1
      && forall k :: |s.sent| <= k < |t.sent| ==> |t.sent[k]| == 3 && t.sent[k][0] == IAC
  {
  }

  // ----- the pump loop -----

  /**
   * Step makes no progress exactly when bIn is empty or holds a stalled
   * command at its head; otherwise it shrinks bIn.
   */
  lemma StepProgress(s: State)
    ensures Step(s) == s <==> s.bIn == [] || Stalled(s.bIn)
    ensures !(s.bIn == [] || Stalled(s.bIn)) ==> |Step(s).bIn| < |s.bIn|
  {
    if s.bIn != [] {
      var i := IndexByte(s.bIn, IAC);
      if i == 0 {
        assert s.bIn[0..] == s.bIn && s.bIn[..0] == [];
        assert s.bOut + [] == s.bOut;
      }
    }
  }

  /** A stalled command stays at the head of bIn however long the pump runs. */
  lemma StalledForever(s: State, n: nat)
    requires Stalled(s.bIn)
    ensures Run(s, n) == s
  {
    StepProgress(s);
    FixedPointForever(s, n);
  }

  /** Decode reads a leading data byte as payload. */
  lemma DecodeData(x: byte, r: seq<byte>)
    requires x != IAC
    ensures var d := Decode(r);
      Decode([x] + r) == Decoded([x] + d.payload, d.replies, d.rest)
  {
    assert ([x] + r)[1..] == r;
  }

  lemma {:induction false} DecodePlain(a: seq<byte>, t: seq<byte>)
    requires IAC !in a
    ensures var d := Decode(t);
      Decode(a + t) == Decoded(a + d.payload, d.replies, d.rest)
    decreases |a|
  {
    if a == [] {
      assert a + t == t;
    } else {
      var x, a' := a[0], a[1..];
      assert a == [x] + a';
      assert a + t == [x] + (a' + t);
      DecodeData(x, a' + t);
      DecodePlain(a', t);
      var d := Decode(t);
      assert [x] + (a' + d.payload) == a + d.payload;
    }
  }

  /** processIAC, started at an IAC, keeps the eventual outcome. */
  lemma ProcessIacKeepsOutcome(s: State)
    requires s.bIn != [] && s.bIn[0] == IAC
    ensures Outcome(ProcessIac(s)) == Outcome(s)
  {
  }

  /** Moving a prefix free of IAC from bIn to bOut keeps the outcome. */
  lemma ForwardKeepsOutcome(s: State, i: nat)
    requires i <= |s.bIn| && IAC !in s.bIn[..i]
    ensures Outcome(s.(bIn := s.bIn[i..], bOut := s.bOut + s.bIn[..i])) == Outcome(s)
  {
    var a, t := s.bIn[..i], s.bIn[i..];
    assert s.bIn == a + t;
    DecodePlain(a, t);
    var d := Decode(t);
    assert (s.bOut + a) + d.payload == s.bOut + (a + d.payload);
  }

  /**
   * Each byte is classified once and in order: a step moves work from bIn to
   * bOut and sent without changing what the pump eventually delivers.
   */
  lemma StepKeepsOutcome(s: State)
    ensures Outcome(Step(s)) == Outcome(s)
  {
    if s.bIn != [] {
      var i := IndexByte(s.bIn, IAC);
      if i == -1 {
        ForwardKeepsOutcome(s, |s.bIn|);
        assert s.bIn[..|s.bIn|] == s.bIn && s.bIn[|s.bIn|..] == [];
      } else {
        var s' := s.(bIn := s.bIn[i..], bOut := s.bOut + s.bIn[..i]);
        ForwardKeepsOutcome(s, i);
        ProcessIacKeepsOutcome(s');
      }
    }
  }

  /** Nothing or a stalled command: Decode reads nothing and holds everything. */
  lemma HeldDecodesToItself(b: seq<byte>)
    requires b == [] || Stalled(b)
    ensures Decode(b) == Decoded([], [], b)
  {
  }

  /** A state the pump does not change stays as it is however long the pump runs. */
  lemma {:induction false} FixedPointForever(s: State, n: nat)
    requires Step(s) == s
    ensures Run(s, n) == s
    decreases n
  {
    if n > 0 {
      FixedPointForever(s, n - 1);
    }
  }

  /** A state holding nothing or a stalled command is its own outcome. */
  lemma HeldOutcome(s: State)
    requires s.bIn == [] || Stalled(s.bIn)
    ensures Outcome(s) == s
  {
    HeldDecodesToItself(s.bIn);
    assert s.bOut + [] == s.bOut && s.sent + [] == s.sent;
  }

  /** A held state is already its outcome, and the pump keeps it there. */
  lemma HeldRun(s: State, n: nat)
    requires s.bIn == [] || Stalled(s.bIn)
    ensures Run(s, n) == Outcome(s)
  {
    StepProgress(s);
    FixedPointForever(s, n);
    HeldOutcome(s);
  }

  /** Otherwise one iteration consumes input and keeps the outcome. */
  lemma AdvanceRun(s: State, n: nat)
    requires !(s.bIn == [] || Stalled(s.bIn)) && n >= |s.bIn|
    ensures n > 0 && Run(s, n) == Run(Step(s), n - 1)
    ensures |Step(s).bIn| <= n - 1 && Outcome(Step(s)) == Outcome(s)
  {
    StepProgress(s);
    StepKeepsOutcome(s);
  }

  /** Running the pump at least |bIn| times reaches the decoded outcome. */
  lemma {:induction false} RunReachesOutcome(s: State, n: nat)
    requires n >= |s.bIn|
    ensures Run(s, n) == Outcome(s)
    decreases n
  {
    if s.bIn == [] || Stalled(s.bIn) {
      HeldRun(s, n);
    } else {
      AdvanceRun(s, n);
      RunReachesOutcome(Step(s), n - 1);
    }
  }

  /** Unescaping undoes escaping: an escaped payload decodes to itself, with no reply. */
  lemma {:induction false} DecodeEscape(p: seq<byte>)
    ensures Decode(Escape(p)) == Decoded(p, [], [])
  {
    if p != [] {
      DecodeEscape(p[1..]);
      var e := Escape(p);
      if p[0] == IAC {
        assert e[2..] == Escape(p[1..]);
      } else {
        assert e[1..] == Escape(p[1..]);
      }
      assert p == [p[0]] + p[1..];
    }
  }

  /** An escaped payload, pumped, arrives unchanged in bOut and triggers no send. */
  lemma PumpDeliversEscaped(p: seq<byte>, out: seq<byte>, sent: seq<seq<byte>>)
    ensures Run(State(Escape(p), out, sent), |Escape(p)|) == State([], out + p, sent)
  {
    DecodeEscape(p);
    RunReachesOutcome(State(Escape(p), out, sent), |Escape(p)|);
    assert sent + [] == sent;
  }

  /** With the first IAC at i, a step forwards the i bytes before it and processes the command. */
  lemma StepAtIac(s: State, i: nat)
    requires i < |s.bIn| && s.bIn[i] == IAC && IAC !in s.bIn[..i]
    ensures Step(s) == ProcessIac(s.(bIn := s.bIn[i..], bOut := s.bOut + s.bIn[..i]))
  {
    IndexByteFirst(s.bIn, IAC, i);
  }

  // ----- concrete exchanges -----

  /** IAC IAC 23: one literal 0xFF, then 23 as ordinary payload. */
  lemma EscapedIacThenData()
    ensures Run(State([IAC, IAC, 23], [], []), 3) == State([], [IAC, 23], [])
  {
    var p: seq<byte> := [IAC, 23];
    assert Escape(p[1..]) == [23];
    assert Escape(p) == [IAC, IAC, 23];
    PumpDeliversEscaped(p, [], []);
  }

  /** Payload before a command is forwarded first; DO ECHO is refused with WONT ECHO. */
  lemma PayloadBeforeCommand()
    ensures Step(State([1, 2, 3, 4, 5, 6, IAC, DO, ECHO], [], []))
         == State([], [1, 2, 3, 4, 5, 6], [[IAC, WONT, ECHO]])
  {
    var b: seq<byte> := [1, 2, 3, 4, 5, 6, IAC, DO, ECHO];
    assert b[..6] == [1, 2, 3, 4, 5, 6] && b[6..] == [IAC, DO, ECHO];
    StepAtIac(State(b, [], []), 6);
    var s' := State([IAC, DO, ECHO], [] + [1, 2, 3, 4, 5, 6], []);
    ExactConsumption(s');
  }

  /** A lone IAC is held rather than forwarded. */
  lemma LoneIacHeld(out: seq<byte>, sent: seq<seq<byte>>)
    ensures Step(State([IAC], out, sent)) == State([IAC], out, sent)
  {
    StepProgress(State([IAC], out, sent));
  }

  /** Once the byte after a held IAC arrives, the pair is processed normally. */
  lemma HeldIacReprocessed(out: seq<byte>, sent: seq<seq<byte>>)
    ensures Step(State([IAC, IAC], out, sent)) == State([], out + [IAC], sent)
  {
    var b: seq<byte> := [IAC, IAC];
    assert IndexByte(b, IAC) == 0;
    assert b[0..] == b && b[..0] == [] && out + [] == out;
    EscapedIac([], out, sent);
    assert b == [IAC, IAC] + [];
  }

  // ----- commands split across reads -----

  /** What one classified unit at the head of the input contributes, and its length. */
  datatype Unit = Unit(payload: seq<byte>, replies: seq<seq<byte>>, len: nat)

  /**
   * The unit at the head of s: a data byte, an escaped IAC or a complete
   * negotiation; None when s is empty or its head is held.
   */
  function FirstUnit(s: seq<byte>): Option<Unit> {
    if s == [] then None
    else if s[0] != IAC then Some(Unit([s[0]], [], 1))
    else if |s| >= 2 && s[1] == IAC then Some(Unit([IAC], [], 2))
    else if |s| >= 3 && IsNegotiation(s[1]) then Some(Unit([], Sends(Response(s[1], s[2])), 3))
    else None
  }

  /** Decode reads the head unit, then the rest; with no head unit it holds everything. */
  lemma DecodeByUnit(s: seq<byte>)
    ensures FirstUnit(s).None? ==> Decode(s) == Decoded([], [], s)
    ensures FirstUnit(s).Some? ==>
      var u := FirstUnit(s).value;
      1 <= u.len <= |s| &&
      var d := Decode(s[u.len..]);
      Decode(s) == Decoded(u.payload + d.payload, u.replies + d.replies, d.rest)
  {
  }

  /** A complete head unit stays the head unit whatever bytes follow. */
  lemma FirstUnitAppend(a: seq<byte>, b: seq<byte>)
    requires FirstUnit(a).Some?
    ensures FirstUnit(a + b) == FirstUnit(a)
    ensures (a + b)[FirstUnit(a).value.len..] == a[FirstUnit(a).value.len..] + b
  {
    assert (a + b)[0] == a[0];
    if |a| >= 2 {
      assert (a + b)[1] == a[1];
    }
    if |a| >= 3 {
      assert (a + b)[2] == a[2];
    }
  }

  /** Reading one unit before a split decoding composes with reading it before the whole. */
  lemma ComposeUnit(u: Unit, dh: Decoded, dr: Decoded, da: Decoded, dab: Decoded)
    requires da == Decoded(u.payload + dh.payload, u.replies + dh.replies, dh.rest)
    requires dab == Decoded(u.payload + (dh.payload + dr.payload), u.replies + (dh.replies + dr.replies), dr.rest)
    ensures dab == Decoded(da.payload + dr.payload, da.replies + dr.replies, dr.rest)
  {
    assert u.payload + (dh.payload + dr.payload) == (u.payload + dh.payload) + dr.payload;
    assert u.replies + (dh.replies + dr.replies) == (u.replies + dh.replies) + dr.replies;
  }

  /**
   * Decoding is insensitive to where the input is split: decoding a + b is
   * decoding a, then decoding what a held back followed by b.
   */
  lemma {:induction false} DecodeAppend(a: seq<byte>, b: seq<byte>)
    ensures var da := Decode(a);
      var dr := Decode(da.rest + b);
      Decode(a + b) == Decoded(da.payload + dr.payload, da.replies + dr.replies, dr.rest)
    decreases |a|
  {
    DecodeByUnit(a);
    var da := Decode(a);
    if FirstUnit(a).Some? {
      var u := FirstUnit(a).value;
      var a' := a[u.len..];
      FirstUnitAppend(a, b);
      DecodeByUnit(a + b);
      DecodeAppend(a', b);
      var dh := Decode(a');
      var dr := Decode(dh.rest + b);
      var dab := Decode(a + b);
      assert dab == Decoded(u.payload + Decode(a' + b).payload, u.replies + Decode(a' + b).replies, Decode(a' + b).rest);
      ComposeUnit(u, dh, dr, da, dab);
    } else {
      var dr := Decode(a + b);
      assert [] + dr.payload == dr.payload && [] + dr.replies == dr.replies;
    }
  }

  /** Adding the classified payload and replies of two decodings in turn is adding their concatenation. */
  lemma ComposeOutcome(s: State, da: Decoded, dr: Decoded, o: State, t: State)
    requires o == State(da.rest, s.bOut + da.payload, s.sent + da.replies)
    requires t == State(dr.rest, o.bOut + dr.payload, o.sent + dr.replies)
    ensures t == State(dr.rest, s.bOut + (da.payload + dr.payload), s.sent + (da.replies + dr.replies))
  {
    assert (s.bOut + da.payload) + dr.payload == s.bOut + (da.payload + dr.payload);
    assert (s.sent + da.replies) + dr.replies == s.sent + (da.replies + dr.replies);
  }

  /** The outcome of a state whose held bytes are followed by b is the outcome of the whole input. */
  lemma OutcomeAppend(s: State, b: seq<byte>)
    ensures var o := Outcome(s);
      Outcome(o.(bIn := o.bIn + b)) == Outcome(s.(bIn := s.bIn + b))
  {
    DecodeAppend(s.bIn, b);
    var da := Decode(s.bIn);
    var o := Outcome(s);
    var dr := Decode(da.rest + b);
    ComposeOutcome(s, da, dr, o, Outcome(o.(bIn := o.bIn + b)));
  }

  /**
   * A read split in two pumps alike: pumping a, appending b to what is held
   * and pumping again ends where pumping a + b in one piece ends. A held IAC is
   * thus processed as soon as the bytes that complete it arrive.
   */
  lemma SplitReadPumpsAlike(a: seq<byte>, b: seq<byte>, out: seq<byte>, sent: seq<seq<byte>>)
    ensures var s1 := Run(State(a, out, sent), |a|);
      Run(s1.(bIn := s1.bIn + b), |s1.bIn + b|) == Run(State(a + b, out, sent), |a + b|)
  {
    var s0 := State(a, out, sent);
    var s1 := Run(s0, |a|);
    RunReachesOutcome(s0, |a|);
    RunReachesOutcome(s1.(bIn := s1.bIn + b), |s1.bIn + b|);
    RunReachesOutcome(State(a + b, out, sent), |a + b|);
    OutcomeAppend(s0, b);
    assert s0.(bIn := s0.bIn + b) == State(a + b, out, sent);
  }
}
