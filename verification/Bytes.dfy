/** Byte strings, and the fixed-width little-endian integers of the DCI format. */
module Bytes {

  type Byte = b: int | 0 <= b < 256

  function Zeros(n: nat): (z: seq<Byte>)
    ensures |z| == n
    ensures forall i :: 0 <= i < n ==> z[i] == 0
  {
    seq(n, i => 0)
  }

  function Pow256(k: nat): (p: nat)
    ensures p > 0
  {
    if k == 0 then 1 else 256 * Pow256(k - 1)
  }

  lemma Pow256Values()
    ensures Pow256(3) == 0x100_0000
    ensures Pow256(8) == 0x1_0000_0000_0000_0000
  {
    assert Pow256(4) == 256 * Pow256(3);
    assert Pow256(6) == 256 * Pow256(5);
  }

  /** The low `k` bytes of `n`, least significant byte first. */
  function LittleEndian(n: nat, k: nat): (b: seq<Byte>)
    ensures |b| == k
    decreases k
  {
    if k == 0 then [] else [n % 256] + LittleEndian(n / 256, k - 1)
  }

  function FromLittleEndian(b: seq<Byte>): nat {
    if b == [] then 0 else b[0] + 256 * FromLittleEndian(b[1..])
  }

  lemma {:induction false} LittleEndianRoundTrip(n: nat, k: nat)
    requires n < Pow256(k)
    ensures FromLittleEndian(LittleEndian(n, k)) == n
    decreases k
  {
    if k > 0 {
      LittleEndianRoundTrip(n / 256, k - 1);
      assert LittleEndian(n, k)[1..] == LittleEndian(n / 256, k - 1);
    }
  }

  /** `buf` with the bytes from `at` on replaced by `b`, growing at the end if needed. */
  function Overwrite(buf: seq<Byte>, at: nat, b: seq<Byte>): (r: seq<Byte>)
    requires at <= |buf|
    ensures |r| == if at + |b| <= |buf| then |buf| else at + |b|
  {
    buf[..at] + b + (if at + |b| <= |buf| then buf[at + |b|..] else [])
  }

  lemma OverwriteNothing(buf: seq<Byte>, at: nat)
    requires at <= |buf|
    ensures Overwrite(buf, at, []) == buf
  {
  }

  lemma OverwriteTwice(buf: seq<Byte>, at: nat, a: seq<Byte>, b: seq<Byte>)
    requires at <= |buf|
    ensures Overwrite(Overwrite(buf, at, a), at + |a|, b) == Overwrite(buf, at, a + b)
  {
  }

  /** At least `n` bytes: shorter strings are filled up with zeros. */
  function Padded(buf: seq<Byte>, n: nat): (r: seq<Byte>)
    ensures n <= |r| && (n <= |buf| ==> r == buf)
  {
    if n <= |buf| then buf else buf + Zeros(n - |buf|)
  }

  /** Leave a gap, write behind it, then come back and fill the gap. */
  lemma PatchGap(buf: seq<Byte>, at: nat, head: seq<Byte>, tail: seq<Byte>)
    requires at <= |buf|
    ensures Overwrite(Overwrite(Padded(buf, at + |head|), at + |head|, tail), at, head)
         == Overwrite(buf, at, head + tail)
  {
  }

  /** A buffer just made, with what happens to be in memory. */
  function Reserved(n: nat, memory: nat -> Byte): (r: seq<Byte>)
    ensures |r| == n
  {
    if n == 0 then [] else Reserved(n - 1, memory) + [memory(n - 1)]
  }

  lemma StartIsWritten(buf: seq<Byte>, b: seq<Byte>)
    requires |b| <= |buf|
    ensures b <= Overwrite(buf, 0, b) && |Overwrite(buf, 0, b)| == |buf|
  {
  }
}
