/** Clearing key buffers (src/securememory.c:20-61). */
module SecureMemory {
  import opened Numbers

  predicate Zero(bytes: seq<Byte>) {
    forall i :: 0 <= i < |bytes| ==> bytes[i] == 0
  }

  /** `cominitSecurememoryZeroOut`: fails on an empty range, and otherwise clears exactly `n` bytes. */
  method ZeroOut(buf: array<Byte>, n: nat) returns (ok: bool)
    requires n <= buf.Length
    modifies buf
    ensures ok <==> n > 0
    ensures (forall i :: 0 <= i < n ==> buf[i] == 0) && Zero(buf[..n]) && buf[n..] == old(buf[n..])
  {
    ok := n > 0;
    var i := 0;
    while i < n
      invariant 0 <= i <= n && Zero(buf[..i]) && buf[n..] == old(buf[n..])
    {
      buf[i] := 0;
      i := i + 1;
    }
  }

  /** `cominitSecurememoryVerifyZero`. */
  method VerifyZero(buf: array<Byte>, n: nat) returns (ok: bool)
    requires n <= buf.Length
    ensures ok <==> n > 0 && forall i :: 0 <= i < n ==> buf[i] == 0
  {
    if n == 0 { return false; }
    var i := 0;
    while i < n
      invariant 0 <= i <= n && Zero(buf[..i])
    {
      if buf[i] != 0 { return false; }
      i := i + 1;
    }
    return true;
  }
}
