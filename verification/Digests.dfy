/**
 Protocol hashes as values: 32 bytes each, with the byte-wise XOR that makes a
 commitment independent of order.
 */
module Digests {
  import opened Wrappers

  /** A 32-byte hash. */
  type Digest = d: seq<bv8> | |d| == 32 witness Repeat(0, 32)

  /** The default hash, all zero bytes. */
  type ZeroDigest = d: Digest | forall i :: 0 <= i < 32 ==> d[i] == 0 witness Repeat(0, 32)

  /** Byte-wise XOR of two hashes. */
  function Xor(a: Digest, b: Digest): Digest {
    seq(32, i requires 0 <= i < 32 => a[i] ^ b[i])
  }

  lemma {:induction false} XorByteLaws(a: bv8, b: bv8, c: bv8)
    ensures (a ^ b) ^ c == (a ^ c) ^ b
    ensures a ^ (b ^ c) == (a ^ c) ^ b
    ensures (a ^ b) ^ b == a
    ensures a ^ 0 == a && 0 ^ a == a
  {
  }

  lemma {:induction false} XorSwap(a: Digest, b: Digest, c: Digest)
    ensures Xor(Xor(a, b), c) == Xor(Xor(a, c), b)
  {
    var l, r := Xor(Xor(a, b), c), Xor(Xor(a, c), b);
    forall i | 0 <= i < 32 ensures l[i] == r[i] {
      XorByteLaws(a[i], b[i], c[i]);
    }
  }

  lemma {:induction false} XorUndo(a: Digest, b: Digest)
    ensures Xor(Xor(a, b), b) == a
  {
    var l := Xor(Xor(a, b), b);
    forall i | 0 <= i < 32 ensures l[i] == a[i] {
      XorByteLaws(a[i], b[i], b[i]);
    }
  }

  lemma {:induction false} XorZero(z: ZeroDigest, a: Digest)
    ensures Xor(a, z) == a && Xor(z, a) == a
  {
    var l, r := Xor(a, z), Xor(z, a);
    forall i | 0 <= i < 32 ensures l[i] == a[i] && r[i] == a[i] {
      XorByteLaws(a[i], a[i], a[i]);
    }
  }

  lemma {:induction false} XorMove(a: Digest, b: Digest, c: Digest)
    ensures Xor(a, Xor(b, c)) == Xor(Xor(a, c), b)
  {
    var l, r := Xor(a, Xor(b, c)), Xor(Xor(a, c), b);
    forall i | 0 <= i < 32 ensures l[i] == r[i] {
      XorByteLaws(a[i], b[i], c[i]);
    }
  }
}
