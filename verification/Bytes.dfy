/** Bytes and the big-endian words made of them. */
module Bytes {

  newtype Byte = b: int | 0 <= b < 256

  const WORD: nat := 0x1_0000_0000

  /** binary.BigEndian.Uint32. */
  function U32(b: seq<Byte>): (n: nat)
    requires |b| >= 4
    ensures n < WORD
  {
    256 * (256 * (256 * (b[0] as nat) + (b[1] as nat)) + (b[2] as nat)) + (b[3] as nat)
  }

  function Word(n: nat): (b: seq<Byte>)
    requires n < WORD
    ensures |b| == 4
  {
    [(n / 256 / 256 / 256) as Byte, (n / 256 / 256 % 256) as Byte, (n / 256 % 256) as Byte, (n % 256) as Byte]
  }

  lemma WordRead(n: nat)
    requires n < WORD
    ensures U32(Word(n)) == n
  {
    var q := n / 256;
    var p := q / 256;
    assert n == 256 * q + n % 256;
    assert q == 256 * p + q % 256;
    assert p == 256 * (p / 256) + p % 256;
  }

  lemma WordWritten(b: seq<Byte>)
    requires |b| == 4
    ensures Word(U32(b)) == b
  {
    var p := 256 * (b[0] as nat) + (b[1] as nat);
    var q := 256 * p + (b[2] as nat);
    var n := 256 * q + (b[3] as nat);
    assert n / 256 == q && n % 256 == b[3] as nat;
    assert q / 256 == p && q % 256 == b[2] as nat;
    assert p / 256 == b[0] as nat && p % 256 == b[1] as nat;
  }

  predicate StartsWith(s: seq<Byte>, prefix: seq<Byte>) {
    |prefix| <= |s| && s[..|prefix|] == prefix
  }

  /** bytes.Index, from a position on: the first match at or after it, or -1. */
  function Find(s: seq<Byte>, sub: seq<Byte>, from: nat): (i: int)
    requires from <= |s|
    ensures i < 0 ==> forall k | from <= k <= |s| :: !StartsWith(s[k..], sub)
    ensures i >= 0 ==>
              from <= i <= |s| && StartsWith(s[i..], sub) && forall k | from <= k < i :: !StartsWith(s[k..], sub)
    decreases |s| - from
  {
    if StartsWith(s[from..], sub) then from
    else if from == |s| then -1
    else Find(s, sub, from + 1)
  }
}
