/**
 * The wire vocabulary of the TELNET IAC engine: command and option codes,
 * the search for the IAC sentinel, the doubling of data bytes equal to IAC
 * (RFC 854, "TELNET COMMAND STRUCTURE") and the fixed negotiation table
 * (Binary Transmission, RFC 856; Suppress Go Ahead, RFC 858).
 */
module Telnet {
  import opened Wrappers

  newtype byte = b: int | 0 <= b < 256

  // Commands
  const IAC: byte := 255
  const DONT: byte := 254
  const DO: byte := 253
  const WONT: byte := 252
  const WILL: byte := 251
  const NOP: byte := 241  // no operation

  // Options
  const BIN: byte := 0    // binary transmission
  const ECHO: byte := 1
  const SGA: byte := 3    // suppress go ahead

  /** The four option-negotiation commands, each followed by one option byte. */
  predicate IsNegotiation(cmd: byte) {
    cmd == WILL || cmd == WONT || cmd == DO || cmd == DONT
  }

  /** bytes.IndexByte: the index of the first x in s, or -1 when there is none. */
  function IndexByte(s: seq<byte>, x: byte): (i: int)
    ensures -1 <= i < |s|
    ensures i == -1 <==> x !in s
    ensures 0 <= i ==> s[i] == x && x !in s[..i]
  {
    if |s| == 0 then -1
    else if s[0] == x then 0
    else
      var j := IndexByte(s[1..], x);
      assert s[1..][..(if j < 0 then 0 else j)] == s[1..(if j < 0 then 1 else j + 1)];
      if j == -1 then -1 else j + 1
  }

  /** The first occurrence is the one with none before it. */
  lemma IndexByteFirst(s: seq<byte>, x: byte, k: nat)
    requires k < |s| && s[k] == x && x !in s[..k]
    ensures IndexByte(s, x) == k
  {
  }

  /** Number of bytes equal to IAC in p. */
  function CountIac(p: seq<byte>): nat {
    if p == [] then 0 else (if p[0] == IAC then 1 else 0) + CountIac(p[1..])
  }

  /**
   * The escaping Write promises: every data byte equal to IAC is sent twice,
   * every other byte once, in order.
   */
  function Escape(p: seq<byte>): (r: seq<byte>)
    ensures |r| == |p| + CountIac(p)
  {
    if p == [] then []
    else (if p[0] == IAC then [IAC, IAC] else [p[0]]) + Escape(p[1..])
  }

  lemma {:induction false} CountIacZero(p: seq<byte>)
    ensures CountIac(p) == 0 <==> IAC !in p
  {
    if p != [] {
      CountIacZero(p[1..]);
      assert p == [p[0]] + p[1..];
    }
  }

  lemma {:induction false} EscapeAppend(a: seq<byte>, b: seq<byte>)
    ensures Escape(a + b) == Escape(a) + Escape(b)
  {
    if a == [] {
      assert a + b == b;
    } else {
      assert (a + b)[1..] == a[1..] + b;
      EscapeAppend(a[1..], b);
    }
  }

  /** Escaping one more byte extends the escaped output by that byte's escape. */
  lemma EscapeSnoc(a: seq<byte>, x: byte)
    ensures Escape(a + [x]) == Escape(a) + (if x == IAC then [IAC, IAC] else [x])
  {
    EscapeAppend(a, [x]);
    assert [x][1..] == [];
  }

  /** Payload without IAC goes out untouched, and only such payload does. */
  lemma {:induction false} EscapeIdentity(p: seq<byte>)
    ensures Escape(p) == p <==> IAC !in p
  {
    CountIacZero(p);
    if IAC !in p && p != [] {
      EscapeIdentity(p[1..]);
      assert p == [p[0]] + p[1..];
    }
  }

  /**
   * The reply the engine sends for a complete negotiation command `cmd opt`,
   * or None when it stays silent.
   */
  function Response(cmd: byte, opt: byte): (r: Option<seq<byte>>)
    ensures r.Some? <==> cmd == WILL || cmd == DO || cmd == DONT
    ensures r.Some? ==> |r.value| == 3 && r.value[0] == IAC && r.value[2] == opt
    ensures cmd == WILL && r.Some? ==> r.value[1] == DO || r.value[1] == DONT
    ensures cmd == DO && r.Some? ==> r.value[1] == WILL || r.value[1] == WONT
    ensures r.Some? && (r.value[1] == DO || r.value[1] == WILL) <==>
              (cmd == WILL && opt == SGA) || (cmd == DO && opt == BIN)
    ensures cmd == DONT ==> r == Some([IAC, WONT, opt])
  {
    if cmd == WILL then
      Some(if opt == SGA then [IAC, DO, SGA] else [IAC, DONT, opt])
    else if cmd == DO then
      Some(if opt == BIN then [IAC, WILL, BIN] else [IAC, WONT, opt])
    else if cmd == DONT then
      Some([IAC, WONT, opt])
    else
      None
  }

  /** The default policy, row by row. */
  lemma NegotiationTable(opt: byte)
    ensures Response(WILL, SGA) == Some([255, 253, 3])
    ensures opt != SGA ==> Response(WILL, opt) == Some([255, 254, opt])
    ensures Response(DO, BIN) == Some([255, 251, 0])
    ensures opt != BIN ==> Response(DO, opt) == Some([255, 252, opt])
    ensures Response(DONT, opt) == Some([255, 252, opt])
    ensures Response(WONT, opt) == None
  {
  }
}
