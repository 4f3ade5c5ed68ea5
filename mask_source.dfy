/**
 * `getRandomMask`: the masking key is four bytes, each made from one value of
 * `Math.random()`, a number in [0, 1). Values are taken as exact reals, so
 * the floating-point rounding of the product is not modelled.
 */
module MaskSource {
  import opened Bytes

  /** One value of `Math.random()`. */
  type Draw = r: real | 0.0 <= r < 1.0

  /**
   * A key byte as lib/Sender.js:194-197 computes it, `~~(r * 255)`: the
   * product is non-negative, so the double negation truncates it to its floor.
   * The product stays below 255, so the byte 255 is never drawn.
   */
  function MaskByteAsWritten(r: Draw): (b: int)
    ensures 0 <= b < 255
  {
    (r * 255.0).Floor
  }

  /** The key `getRandomMask` returns as written: no key containing 255 can come out. */
  function RandomMaskAsWritten(r0: Draw, r1: Draw, r2: Draw, r3: Draw): (key: MaskKey)
    ensures 255 !in key
  {
    [MaskByteAsWritten(r0), MaskByteAsWritten(r1), MaskByteAsWritten(r2), MaskByteAsWritten(r3)]
  }

  /** The key 0xFF 0xFF 0xFF 0xFF, a valid masking key, is one the source never produces. */
  lemma AllOnesKeyUnreachable(r0: Draw, r1: Draw, r2: Draw, r3: Draw)
    ensures RandomMaskAsWritten(r0, r1, r2, r3) != [0xFF, 0xFF, 0xFF, 0xFF]
  {
    var key := RandomMaskAsWritten(r0, r1, r2, r3);
    assert key[0] != 0xFF;
  }

  /** A key byte with every value possible: the floor of r * 256. */
  function MaskByte(r: Draw): (b: byte)
    ensures b as real <= r * 256.0 < b as real + 1.0
  {
    (r * 256.0).Floor
  }

  /**
   * Each byte value is drawn from a sub-interval of [0, 1) of width 1/256, so
   * every value is reachable and, for a uniform draw, equally likely.
   */
  lemma MaskByteInterval(r: Draw, b: byte)
    ensures MaskByte(r) == b <==> b as real / 256.0 <= r < (b as real + 1.0) / 256.0
  {
    var m := MaskByte(r);
    if MaskByte(r) == b {
      assert b as real <= r * 256.0 < b as real + 1.0;
    } else if b < m {
      assert (b as real + 1.0) / 256.0 <= m as real / 256.0;
    } else {
      assert r * 256.0 < b as real;
    }
  }

  /** The key built from four draws with the corrected byte rule. */
  function RandomMask(r0: Draw, r1: Draw, r2: Draw, r3: Draw): MaskKey
  {
    [MaskByte(r0), MaskByte(r1), MaskByte(r2), MaskByte(r3)]
  }

  /** Every masking key is the corrected rule's result for some four draws. */
  lemma EveryKeyReachable(key: MaskKey)
    ensures RandomMask(key[0] as real / 256.0, key[1] as real / 256.0,
                       key[2] as real / 256.0, key[3] as real / 256.0) == key
  {
    MaskByteInterval(key[0] as real / 256.0, key[0]);
    MaskByteInterval(key[1] as real / 256.0, key[1]);
    MaskByteInterval(key[2] as real / 256.0, key[2]);
    MaskByteInterval(key[3] as real / 256.0, key[3]);
  }
}
