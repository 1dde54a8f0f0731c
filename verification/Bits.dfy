/**
 * Fixed-width words as their bits, least significant first: the octets of a PCR
 * selection and the 32-bit mask of the PCRs still to be read.
 */
module Bits {
  import opened Prelude

  type Octet = s: seq<bool> | |s| == 8 witness seq(8, i => false)

  type Mask = s: seq<bool> | |s| == 32 witness seq(32, i => false)

  const NO_BITS: Mask := seq(32, i => false)
  const ALL_ONES: Octet := [true, true, true, true, true, true, true, true]

  /** The unsigned value of an octet. */
  function ValueOf(o: Octet): Byte {
    (if o[0] then 1 else 0) + (if o[1] then 2 else 0) + (if o[2] then 4 else 0) + (if o[3] then 8 else 0)
    + (if o[4] then 16 else 0) + (if o[5] then 32 else 0) + (if o[6] then 64 else 0) + (if o[7] then 128 else 0)
  }

  /** `mask | 1 << p`: a shift past the width leaves nothing. */
  function WithBit(mask: Mask, p: nat): Mask {
    if p < 32 then mask[p := true] else mask
  }

  /** `mask & ^(uint32(bits) << (j * 8))`. */
  function WithoutOctet(mask: Mask, bits: Octet, j: nat): Mask {
    seq(32, p requires 0 <= p < 32 => mask[p] && !(p / 8 == j && bits[p % 8]))
  }

  predicate InMask(mask: Mask, p: nat) {
    p < 32 && mask[p]
  }

  lemma EmptyMask(mask: Mask)
    ensures mask == NO_BITS <==> forall p: nat :: !InMask(mask, p)
  {
    if forall p: nat :: !InMask(mask, p) {
      assert forall p: nat :: p < 32 ==> InMask(mask, p) == mask[p];
    }
  }

  /** Bit `i` is worth 2 to the `i`. */
  lemma BitsOfValue(o: Octet)
    ensures 0 <= ValueOf(o) < 256
    ensures o[0] <==> ValueOf(o) % 2 == 1
    ensures o[1] <==> ValueOf(o) / 2 % 2 == 1
    ensures o[2] <==> ValueOf(o) / 4 % 2 == 1
    ensures o[3] <==> ValueOf(o) / 8 % 2 == 1
    ensures o[4] <==> ValueOf(o) / 16 % 2 == 1
    ensures o[5] <==> ValueOf(o) / 32 % 2 == 1
    ensures o[6] <==> ValueOf(o) / 64 % 2 == 1
    ensures o[7] <==> ValueOf(o) / 128 % 2 == 1
  {
    var v7 := Above(o[7], 0);
    var v6 := Above(o[6], v7);
    var v5 := Above(o[5], v6);
    var v4 := Above(o[4], v5);
    var v3 := Above(o[3], v4);
    var v2 := Above(o[2], v3);
    var v1 := Above(o[1], v2);
    var v := Above(o[0], v1);
    assert v == ValueOf(o);
    hide ValueOf;
    Halves(v);
    assert v / 2 == v1 && v / 4 == v2 && v / 8 == v3 && v / 16 == v4;
    assert v / 32 == v5 && v / 64 == v6 && v / 128 == v7;
  }

  lemma Halves(v: nat)
    ensures v / 4 == v / 2 / 2 && v / 8 == v / 4 / 2 && v / 16 == v / 8 / 2
    ensures v / 32 == v / 16 / 2 && v / 64 == v / 32 / 2 && v / 128 == v / 64 / 2
  {
  }

  function Power2(i: nat): (r: nat)
    ensures r > 0
  {
    if i == 0 then 1 else 2 * Power2(i - 1)
  }

  /** Bit `i` of an octet's value, counted from the least significant. */
  predicate IsSet(value: Byte, i: nat) {
    value / Power2(i) % 2 == 1
  }

  lemma BitOfValue(o: Octet, i: nat)
    requires i < 8
    ensures o[i] <==> IsSet(ValueOf(o), i)
  {
    BitsOfValue(o);
    hide ValueOf;
    Powers();
  }

  lemma Powers()
    ensures Power2(0) == 1 && Power2(1) == 2 && Power2(2) == 4 && Power2(3) == 8
    ensures Power2(4) == 16 && Power2(5) == 32 && Power2(6) == 64 && Power2(7) == 128
  {
    assert Power2(3) == 8;
    assert Power2(5) == 32;
  }

  /** The value that has `bit` below the bits of `rest`. */
  lemma Above(bit: bool, rest: nat) returns (v: nat)
    ensures v == 2 * rest + (if bit then 1 else 0) && v / 2 == rest && (bit <==> v % 2 == 1)
  {
    v := 2 * rest + if bit then 1 else 0;
  }

  lemma ValueTellsOctets(a: Octet, b: Octet)
    requires ValueOf(a) == ValueOf(b)
    ensures a == b
  {
    BitsOfValue(a);
    BitsOfValue(b);
  }

  lemma AllOnesIs255()
    ensures forall o: Octet :: o == ALL_ONES <==> ValueOf(o) == 255
  {
    forall o: Octet | ValueOf(o) == 255
      ensures o == ALL_ONES
    {
      ValueTellsOctets(o, ALL_ONES);
    }
  }
}
