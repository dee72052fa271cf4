/** Bytes, byte strings and the one search the reception code needs. */
module Bytes {
  type byte = b: int | 0 <= b < 256

  /** A string of unsigned chars, as received from or written to the port. */
  type ustring = seq<byte>

  /** Terminator of every message. */
  const CR: byte := 0x0D

  /** First byte of commands and, with some firmware, of replies. */
  const GT: byte := '>' as int

  /** First byte of replies. */
  const LT: byte := '<' as int

  const HASH: byte := '#' as int
  const COLON: byte := ':' as int

  function Zeros(n: nat): (s: seq<byte>)
    ensures |s| == n
  {
    seq(n, i => 0)
  }

  /** A little-endian 16-bit number. */
  function Number(lo: byte, hi: byte): (n: nat)
    ensures n < 0x10000
  {
    lo as int + 0x100 * (hi as int)
  }

  /** Position of the first b at or after from; |s| stands for npos. */
  function Find(s: ustring, b: byte, from: nat): (p: nat)
    requires from <= |s|
    ensures from <= p <= |s|
    ensures p < |s| ==> s[p] == b
    ensures b !in s[from..p]
    decreases |s| - from
  {
    if from == |s| || s[from] == b then from
    else
      var p := Find(s, b, from + 1);
      assert s[from..p] == [s[from]] + s[from + 1..p];
      p
  }

  lemma {:induction false} FindIs(s: ustring, b: byte, from: nat, at: nat)
    requires from <= at < |s| && s[at] == b && forall k :: from <= k < at ==> s[k] != b
    ensures Find(s, b, from) == at
    decreases at - from
  {
    if from < at {
      FindIs(s, b, from + 1, at);
    }
  }

  /** The parts of a list, one after the other. */
  function Concat(parts: seq<ustring>): (s: ustring)
  {
    if parts == [] then [] else parts[0] + Concat(parts[1..])
  }

  lemma Assoc<T>(a: seq<T>, b: seq<T>, c: seq<T>)
    ensures a + b + c == a + (b + c)
  {
  }

  /** What is sent in two parts is sent without gap or repeat. */
  lemma PartsJoin(before: ustring, s: ustring, i: nat, j: nat)
    requires i <= j <= |s|
    ensures before + s[..i] + s[i..j] == before + s[..j]
    ensures before + s[..0] == before
  {
    assert s[..i] + s[i..j] == s[..j];
    Assoc(before, s[..i], s[i..j]);
  }
}
