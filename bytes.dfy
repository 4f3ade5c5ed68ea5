/**
 * Bytes of a Node.js Buffer, the big-endian layouts that `writeUInt16BE` and
 * `writeUInt32BE` store, and the XOR masking that `bufferUtil.mask` performs.
 */
module Bytes {

  /** An element of a Node.js Buffer: an integer from 0 to 255. */
  type byte = b: int | 0 <= b < 0x100

  /** A masking key: exactly four bytes. */
  type MaskKey = k: seq<byte> | |k| == 4 witness [0, 0, 0, 0]

  function Pow2(n: nat): (p: nat)
    ensures p >= 1
  {
    if n == 0 then 1 else 2 * Pow2(n - 1)
  }

  /** The low `n` bits of the bitwise exclusive or of `a` and `b`, taken bit by bit from the bottom. */
  function XorBits(a: nat, b: nat, n: nat): (r: nat)
    ensures r < Pow2(n)
  {
    if n == 0 then 0 else 2 * XorBits(a / 2, b / 2, n - 1) + (if a % 2 == b % 2 then 0 else 1)
  }

  /** The low `n` bits of the bitwise inclusive or of `a` and `b`. */
  function OrBits(a: nat, b: nat, n: nat): (r: nat)
    ensures r < Pow2(n)
  {
    if n == 0 then 0 else 2 * OrBits(a / 2, b / 2, n - 1) + (if a % 2 == 1 || b % 2 == 1 then 1 else 0)
  }

  /** JavaScript's `a ^ b` on two bytes. */
  function Xor(a: byte, b: byte): byte
  {
    assert Pow2(8) == 0x100;
    XorBits(a, b, 8)
  }

  /** JavaScript's `a | b` on two bytes. */
  function Or(a: byte, b: byte): byte
  {
    assert Pow2(8) == 0x100;
    OrBits(a, b, 8)
  }

  /**
   * The two bytes `writeUInt16BE(value, offset)` stores, most significant first.
   * `(value & 0xff00) >> 8` on the 32-bit integer JavaScript makes of `value`
   * is floor(value / 256) mod 256, and `value & 0xff` is value mod 256; Dafny's
   * `/` and `%` by a positive constant are exactly these floor operations.
   */
  function UInt16BE(value: int): seq<byte>
  {
    [(value / 0x100) % 0x100, value % 0x100]
  }

  /**
   * The four bytes `writeUInt32BE(value, offset)` stores, most significant first.
   * The top byte goes through an arithmetic shift in the source and may be
   * negative before the Buffer keeps its low eight bits; the stored byte is
   * floor(value / 2^24) mod 256 either way.
   */
  function UInt32BE(value: int): seq<byte>
  {
    [(value / 0x100_0000) % 0x100, (value / 0x1_0000) % 0x100, (value / 0x100) % 0x100, value % 0x100]
  }

  /** The unsigned number a big-endian byte string denotes (the reader's view). */
  function FromBE(s: seq<byte>): nat
  {
    if s == [] then 0 else FromBE(s[..|s| - 1]) * 0x100 + s[|s| - 1]
  }

  /** `bufferUtil.mask`: every byte XORed with the key byte at its position modulo 4. */
  function Mask(data: seq<byte>, key: MaskKey): seq<byte>
  {
    seq(|data|, i requires 0 <= i < |data| => Xor(data[i], key[i % 4]))
  }

  lemma {:induction false} XorBitsInvolution(a: nat, k: nat, n: nat)
    requires a < Pow2(n)
    ensures XorBits(XorBits(a, k, n), k, n) == a
  {
    if n > 0 {
      var c := XorBits(a, k, n);
      XorBitsInvolution(a / 2, k / 2, n - 1);
      assert c / 2 == XorBits(a / 2, k / 2, n - 1);
    }
  }

  /** XORing the same key byte twice restores the byte. */
  lemma XorInvolution(a: byte, k: byte)
    ensures Xor(Xor(a, k), k) == a
  {
    assert Pow2(8) == 0x100;
    XorBitsInvolution(a, k, 8);
  }

  lemma {:induction false} OrBitsTop(a: nat, n: nat)
    requires n >= 1 && a < Pow2(n - 1)
    ensures OrBits(a, Pow2(n - 1), n) == a + Pow2(n - 1)
  {
    if n > 1 {
      OrBitsTop(a / 2, n - 1);
    }
  }

  lemma {:induction false} OrBitsZero(a: nat, n: nat)
    requires a < Pow2(n)
    ensures OrBits(a, 0, n) == a
  {
    if n > 0 {
      OrBitsZero(a / 2, n - 1);
    }
  }

  /** OR with zero leaves a byte as it is: `opcode | 0` on a non-final frame. */
  lemma OrZero(a: byte)
    ensures Or(a, 0) == a
  {
    assert Pow2(8) == 0x100;
    OrBitsZero(a, 8);
  }

  /** Setting bit 7 of a byte below 0x80 adds 0x80: `opcode | 0x80` and `secondByte | 0x80`. */
  lemma OrHighBit(a: byte)
    requires a < 0x80
    ensures Or(a, 0x80) == a + 0x80
  {
    assert Pow2(7) == 0x80;
    OrBitsTop(a, 8);
  }

  /** Splitting off the byte above a power-of-256 boundary `d`. */
  lemma ByteSplit(v: int, d: int)
    requires d == 1 || d == 0x100 || d == 0x1_0000 || d == 0x100_0000
    ensures v % (0x100 * d) == ((v / d) % 0x100) * d + v % d
  {
    if d == 0x100 {
      var q := v / 0x100;
      assert v == 0x1_0000 * (q / 0x100) + (0x100 * (q % 0x100) + v % 0x100);
    } else if d == 0x1_0000 {
      var q := v / 0x1_0000;
      assert v == 0x100_0000 * (q / 0x100) + (0x1_0000 * (q % 0x100) + v % 0x1_0000);
    } else if d == 0x100_0000 {
      var q := v / 0x100_0000;
      assert v == 0x1_0000_0000 * (q / 0x100) + (0x100_0000 * (q % 0x100) + v % 0x100_0000);
    }
  }

  lemma FromBE2(a: byte, b: byte)
    ensures FromBE([a, b]) == a * 0x100 + b
  {
    assert [a, b][..1] == [a];
    assert [a][..0] == [];
    assert FromBE([a]) == a;
  }

  lemma FromBE4(a: byte, b: byte, c: byte, e: byte)
    ensures FromBE([a, b, c, e]) == ((a * 0x100 + b) * 0x100 + c) * 0x100 + e
  {
    assert [a, b, c, e][..3] == [a, b, c];
    assert [a, b, c][..2] == [a, b];
    FromBE2(a, b);
  }

  /** Reading back what `writeUInt16BE` stored gives the value modulo 2^16. */
  lemma UInt16BERoundTrip(value: int)
    ensures FromBE(UInt16BE(value)) == value % 0x1_0000
  {
    FromBE2((value / 0x100) % 0x100, value % 0x100);
    ByteSplit(value, 0x100);
  }

  /** Reading back what `writeUInt32BE` stored gives the value modulo 2^32. */
  lemma UInt32BERoundTrip(value: int)
    ensures FromBE(UInt32BE(value)) == value % 0x1_0000_0000
  {
    FromBE4((value / 0x100_0000) % 0x100, (value / 0x1_0000) % 0x100, (value / 0x100) % 0x100, value % 0x100);
    ByteSplit(value, 0x100);
    ByteSplit(value, 0x1_0000);
    ByteSplit(value, 0x100_0000);
  }

  /** Leading zero bytes do not change the number a big-endian string denotes. */
  lemma {:induction false} FromBEZeroPrefix(zeros: seq<byte>, s: seq<byte>)
    requires forall i :: 0 <= i < |zeros| ==> zeros[i] == 0
    ensures FromBE(zeros + s) == FromBE(s)
    decreases |s|
  {
    if s == [] {
      assert zeros + s == zeros;
      FromBEZeros(zeros);
    } else {
      var t := s[..|s| - 1];
      assert (zeros + s)[..|zeros + s| - 1] == zeros + t;
      FromBEZeroPrefix(zeros, t);
    }
  }

  lemma {:induction false} FromBEZeros(zeros: seq<byte>)
    requires forall i :: 0 <= i < |zeros| ==> zeros[i] == 0
    ensures FromBE(zeros) == 0
    decreases |zeros|
  {
    if zeros != [] {
      FromBEZeros(zeros[..|zeros| - 1]);
    }
  }

  /** Masking twice with the same key restores the data: the receiver unmasks by XOR. */
  lemma MaskInvolution(data: seq<byte>, key: MaskKey)
    ensures Mask(Mask(data, key), key) == data
  {
    var m := Mask(data, key);
    forall i | 0 <= i < |data|
      ensures Mask(m, key)[i] == data[i]
    {
      XorInvolution(data[i], key[i % 4]);
    }
  }
}
