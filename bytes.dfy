/** Rust's `u8` and the bit-level operations the core applies to it: exclusive-or and circular rotation.
    A byte is viewed as its eight bits, least significant first. */
module Bytes {

  type byte = x: int | 0 <= x < 256

  function Pow2(n: nat): (r: nat)
    ensures r >= 1
  {
    if n == 0 then 1 else 2 * Pow2(n - 1)
  }

  lemma {:induction false} Pow2Add(a: nat, b: nat)
    ensures Pow2(a + b) == Pow2(a) * Pow2(b)
    decreases a
  {
    if a > 0 {
      Pow2Add(a - 1, b);
    }
  }

  lemma Pow2Byte()
    ensures Pow2(8) == 256
  {
  }

  /** The low `n` bits of `x`, least significant first. */
  function ToBits(x: nat, n: nat): (bs: seq<bool>)
    ensures |bs| == n
  {
    if n == 0 then [] else [x % 2 == 1] + ToBits(x / 2, n - 1)
  }

  /** The number whose bits, least significant first, are `bs`. */
  function FromBits(bs: seq<bool>): (x: nat)
    ensures x < Pow2(|bs|)
  {
    if bs == [] then 0 else (if bs[0] then 1 else 0) + 2 * FromBits(bs[1..])
  }

  lemma {:induction false} FromToBits(x: nat, n: nat)
    requires x < Pow2(n)
    ensures FromBits(ToBits(x, n)) == x
  {
    if n > 0 {
      FromToBits(x / 2, n - 1);
      assert ToBits(x, n)[1..] == ToBits(x / 2, n - 1);
    }
  }

  lemma {:induction false} ToFromBits(bs: seq<bool>)
    ensures ToBits(FromBits(bs), |bs|) == bs
  {
    if bs != [] {
      ToFromBits(bs[1..]);
      var x := FromBits(bs);
      assert x / 2 == FromBits(bs[1..]);
      assert (x % 2 == 1) == bs[0];
      assert bs == [bs[0]] + bs[1..];
    }
  }

  /** The eight bits of `b`, least significant first. */
  function BitsOf(b: byte): (bs: seq<bool>)
    ensures |bs| == 8
  {
    ToBits(b, 8)
  }

  /** The byte whose eight bits are `bs`. */
  function ByteOf(bs: seq<bool>): byte
    requires |bs| == 8
  {
    Pow2Byte();
    FromBits(bs)
  }

  /** A byte and its bits determine each other. */
  lemma BitsRoundTrip(b: byte, bs: seq<bool>)
    requires |bs| == 8
    ensures ByteOf(BitsOf(b)) == b
    ensures BitsOf(ByteOf(bs)) == bs
  {
    Pow2Byte();
    FromToBits(b, 8);
    ToFromBits(bs);
  }

  /** Rust's `^` on `u8`: bit `i` of the result is set iff exactly one of the two operands has it set. */
  function Xor(a: byte, b: byte): (r: byte)
  {
    ByteOf(seq(8, i requires 0 <= i < 8 => BitsOf(a)[i] != BitsOf(b)[i]))
  }

  lemma XorBit(a: byte, b: byte, i: nat)
    requires i < 8
    ensures BitsOf(Xor(a, b))[i] == (BitsOf(a)[i] != BitsOf(b)[i])
  {
    BitsRoundTrip(a, seq(8, i requires 0 <= i < 8 => BitsOf(a)[i] != BitsOf(b)[i]));
  }

  /** Exclusive-or with the same key byte twice gives back the original byte. */
  lemma XorInvolution(a: byte, k: byte)
    ensures Xor(Xor(a, k), k) == a
  {
    var c := Xor(a, k);
    forall i | 0 <= i < 8 ensures BitsOf(Xor(c, k))[i] == BitsOf(a)[i] {
      XorBit(c, k, i);
      XorBit(a, k, i);
    }
    assert BitsOf(Xor(c, k)) == BitsOf(a);
    BitsRoundTrip(a, BitsOf(a));
    BitsRoundTrip(Xor(c, k), BitsOf(a));
  }

  /** Circular rotation of the eight bits by `k` places towards the least significant end. */
  function RotateRight(b: byte, k: nat): byte
    requires k < 8
  {
    ByteOf(BitsOf(b)[k..] + BitsOf(b)[..k])
  }

  /** Circular rotation of the eight bits by `k` places towards the most significant end. */
  function RotateLeft(b: byte, k: nat): byte
    requires k < 8
  {
    ByteOf(BitsOf(b)[8 - k..] + BitsOf(b)[..8 - k])
  }

  /** Bit `i` of a right rotation by `k` is bit `(i + k) mod 8` of the original. */
  lemma RotateRightBit(b: byte, k: nat, i: nat)
    requires k < 8 && i < 8
    ensures BitsOf(RotateRight(b, k))[i] == BitsOf(b)[(i + k) % 8]
  {
    var bs := BitsOf(b);
    var rs := bs[k..] + bs[..k];
    BitsRoundTrip(b, rs);
    assert BitsOf(RotateRight(b, k)) == rs;
    if i + k < 8 {
      assert rs[i] == bs[i + k] && (i + k) % 8 == i + k;
    } else {
      assert rs[i] == bs[i + k - 8] && (i + k) % 8 == i + k - 8;
    }
  }

  /** Rotating left by `k` undoes rotating right by `k`. */
  lemma RotateLeftRight(b: byte, k: nat)
    requires k < 8
    ensures RotateLeft(RotateRight(b, k), k) == b
  {
    var bs := BitsOf(b);
    var rs := bs[k..] + bs[..k];
    BitsRoundTrip(b, rs);
    var r := RotateRight(b, k);
    assert BitsOf(r) == rs;
    assert rs[8 - k..] + rs[..8 - k] == bs;
  }

  /** Rotating by zero places changes nothing. */
  lemma RotateRightZero(b: byte)
    ensures RotateRight(b, 0) == b
  {
    var bs := BitsOf(b);
    assert bs[0..] + bs[..0] == bs;
    BitsRoundTrip(b, bs);
  }
}
