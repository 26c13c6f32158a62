/**
 * The escaping loop of Write exactly as telnet.go:257-264 has it. On a 0xFF at
 * index i it inserts a copy at i, which moves the original to i + 1, and then
 * advances the index by one only: the next iteration meets the original 0xFF
 * again and inserts once more, without end. The loop is modelled as a function,
 * and a function must terminate, so the loop carries a bound on its iterations
 * and answers None when the bound is exhausted before the loop condition fails.
 */
module LiteralWrite {
  import opened Wrappers
  import opened Telnet

  /** The loop `for ; i < len(b); i++` as written, for at most `fuel` iterations. */
  function WriteLoopAsWritten(b: seq<byte>, i: nat, fuel: nat): Option<seq<byte>>
    decreases fuel
  {
    if i >= |b| then Some(b)
    else if fuel == 0 then None
    else if b[i] == IAC then
      // insert a copy of b[i] at i, shifting the rest one place right
      WriteLoopAsWritten(b[..i] + [IAC] + b[i..], i + 1, fuel - 1)
    else WriteLoopAsWritten(b, i + 1, fuel - 1)
  }

  /** Once a 0xFF lies ahead of the index, no number of iterations ends the loop. */
  lemma {:induction false} WriteLoopNeverEnds(b: seq<byte>, i: nat, fuel: nat)
    requires i <= |b| && IAC in b[i..]
    ensures WriteLoopAsWritten(b, i, fuel) == None
    decreases fuel
  {
    if fuel > 0 {
      if b[i] == IAC {
        var b' := b[..i] + [IAC] + b[i..];
        assert b'[i + 1] == IAC;
        assert b'[i + 1..][0] == IAC;
        WriteLoopNeverEnds(b', i + 1, fuel - 1);
      } else {
        assert b[i..] == [b[i]] + b[i + 1..];
        WriteLoopNeverEnds(b, i + 1, fuel - 1);
      }
    }
  }

  /** Concretely: writing the single byte 0xFF never reaches the transport. */
  lemma WriteOfIacHangs(fuel: nat)
    ensures WriteLoopAsWritten([IAC], 0, fuel) == None
  {
    WriteLoopNeverEnds([IAC], 0, fuel);
  }

  /** Without 0xFF in the caller's bytes the loop as written ends and agrees with Escape. */
  lemma {:induction false} WriteLoopWithoutIac(b: seq<byte>, i: nat, fuel: nat)
    requires i <= |b| && IAC !in b && fuel >= |b| - i
    ensures WriteLoopAsWritten(b, i, fuel) == Some(Escape(b))
    decreases |b| - i
  {
    if i < |b| {
      WriteLoopWithoutIac(b, i + 1, fuel - 1);
    } else {
      EscapeIdentity(b);
    }
  }
}
