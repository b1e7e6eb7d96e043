/** Byte strings: the contents of files, keys, nonces and cipher streams. */
module Bytes {

  /** One byte, as the unsigned value of its eight bits. */
  newtype byte = x: int | 0 <= x < 256

  /** 2 to the power `n`. */
  function Pow2(n: nat): (p: nat)
    ensures p >= 1
  {
    if n == 0 then 1 else 2 * Pow2(n - 1)
  }

  /** Exclusive or of the low `width` bits of `a` and `b`, lowest bit first. */
  function XorBits(a: nat, b: nat, width: nat): (r: nat)
    ensures r < Pow2(width)
    decreases width
  {
    if width == 0 then 0 else (a % 2 + b % 2) % 2 + 2 * XorBits(a / 2, b / 2, width - 1)
  }

  /** Xoring twice with the same bits gives back the original bits. */
  lemma {:induction false} XorBitsTwice(a: nat, b: nat, width: nat)
    requires a < Pow2(width)
    ensures XorBits(XorBits(a, b, width), b, width) == a
    decreases width
  {
    if width > 0 {
      var r := (a % 2 + b % 2) % 2;
      var y := XorBits(a / 2, b / 2, width - 1);
      LowBit(a, b);
      SplitLowBit(r, y);
      HalfBound(a, width);
      XorBitsTwice(a / 2, b / 2, width - 1);
      assert XorBits(r + 2 * y, b, width) == a % 2 + 2 * (a / 2);
    }
  }

  /** The low bit of `a` xor `b`, xored again with `b`'s, is `a`'s. */
  lemma LowBit(a: nat, b: nat)
    ensures ((a % 2 + b % 2) % 2 + b % 2) % 2 == a % 2
  {
  }

  /** A low bit and the bits above it are recovered by `% 2` and `/ 2`. */
  lemma SplitLowBit(r: nat, y: nat)
    requires r < 2
    ensures (r + 2 * y) % 2 == r && (r + 2 * y) / 2 == y
  {
  }

  /** Dropping the low bit of a `width`-bit number leaves `width - 1` bits. */
  lemma HalfBound(a: nat, width: nat)
    requires 0 < width && a < Pow2(width)
    ensures a / 2 < Pow2(width - 1)
  {
  }

  /** Bitwise exclusive or of two bytes. */
  function Xor(a: byte, b: byte): byte
  {
    XorBits(a as nat, b as nat, 8) as byte
  }

  /** Xoring twice with the same byte gives back the original byte. */
  lemma XorTwice(a: byte, b: byte)
    ensures Xor(Xor(a, b), b) == a
  {
    assert Pow2(8) == 256;
    XorBitsTwice(a as nat, b as nat, 8);
  }

  /** `n` zero bytes, what `ByteArray(n)` holds before anything is read into it. */
  function Zeros(n: nat): (z: seq<byte>)
    ensures |z| == n
    ensures forall i :: 0 <= i < n ==> z[i] == 0
  {
    seq(n, _ => 0)
  }

  /** The concatenation of a sequence of chunks, in order. */
  function Flatten(chunks: seq<seq<byte>>): seq<byte>
  {
    if |chunks| == 0 then [] else chunks[0] + Flatten(chunks[1..])
  }

  lemma {:induction false} FlattenAppend(a: seq<seq<byte>>, b: seq<seq<byte>>)
    ensures Flatten(a + b) == Flatten(a) + Flatten(b)
    decreases |a|
  {
    if |a| == 0 {
      assert a + b == b;
    } else {
      assert (a + b)[1..] == a[1..] + b;
      FlattenAppend(a[1..], b);
    }
  }
}
