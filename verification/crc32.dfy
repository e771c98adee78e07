/**
 * The record checksum of the ring log: the reflected CRC-32 of IEEE 802.3
 * (polynomial 0xEDB88320, register preset to all ones, final complement),
 * computed bit by bit.
 */
module Crc32 {
  import opened Common

  const Preset: bv32 := 0xFFFF_FFFF

  const Poly: bv32 := 0xEDB8_8320

  /** One bit of the reflected polynomial division, written branch-free as
      the firmware does: `(crc >> 1) ^ (poly & -(crc & 1))`. */
  function Shift(c: bv32): bv32
  {
    (c >> 1) ^ (Poly & (0 - (c & 1)))
  }

  function ShiftN(c: bv32, k: nat): bv32
  {
    if k == 0 then c else Shift(ShiftN(c, k - 1))
  }

  const BitsPerByte: nat := 8

  /** Feeding one byte: XOR it into the low bits, then eight shifts. */
  function FeedByte(c: bv32, b: u8): bv32
  {
    ShiftN(c ^ (b as bv32), BitsPerByte)
  }

  /** The register after feeding `data` into a register holding `c`. */
  function Register(c: bv32, data: Bytes): bv32
  {
    if data == [] then c else FeedByte(Register(c, data[..|data| - 1]), data[|data| - 1])
  }

  /** The CRC-32 of `data`. */
  function Crc(data: Bytes): bv32
  {
    !Register(Preset, data)
  }

  /** The masked step is the polynomial division step: shift right, and
      subtract (XOR) the polynomial exactly when the bit shifted out is set. */
  lemma {:induction false} ShiftDividesByPoly(c: bv32)
    ensures c & 1 == 1 ==> Shift(c) == (c >> 1) ^ Poly
    ensures c & 1 == 0 ==> Shift(c) == c >> 1
  {
    if c & 1 == 1 {
      assert 0 - (c & 1) == 0xFFFF_FFFF;
    } else {
      assert 0 - (c & 1) == 0;
    }
  }

  lemma {:induction false} RegisterSnoc(c: bv32, data: Bytes, i: nat)
    requires i < |data|
    ensures Register(c, data[..i + 1]) == FeedByte(Register(c, data[..i]), data[i])
  {
    assert data[..i + 1][..i] == data[..i];
  }

  /** The inner loop of `crc32_simple`: one byte, eight masked steps. */
  method FeedBits(c: bv32, x: u8) returns (crc: bv32)
    ensures crc == FeedByte(c, x)
  {
    crc := c ^ (x as bv32);
    ghost var fed := crc;
    var b := 0;
    while b < 8
      invariant 0 <= b <= 8
      invariant crc == ShiftN(fed, b)
    {
      crc := (crc >> 1) ^ (0xEDB88320 & (0 - (crc & 1)));
      b := b + 1;
    }
  }

  /** `crc32_simple`: the firmware loop computes `Crc`. */
  method Crc32Simple(data: Bytes) returns (crc: bv32)
    ensures crc == Crc(data)
  {
    crc := Preset;
    var i := 0;
    while i < |data|
      invariant 0 <= i <= |data|
      invariant crc == Register(Preset, data[..i])
    {
      crc := FeedBits(crc, data[i]);
      RegisterSnoc(Preset, data, i);
      i := i + 1;
    }
    assert data[..i] == data;
    crc := !crc;
  }

  /** The register follows any trace of values each of which is the
      previous one fed with the next byte. */
  lemma {:induction false} RegisterOfTrace(d: Bytes, t: seq<bv32>, i: nat)
    requires |t| == |d| + 1 && i <= |d| && t[0] == Preset
    requires forall k :: 0 <= k < |d| ==> t[k + 1] == FeedByte(t[k], d[k])
    ensures Register(Preset, d[..i]) == t[i]
  {
    if i == 0 {
      assert d[..0] == [];
    } else {
      RegisterOfTrace(d, t, i - 1);
      RegisterSnoc(Preset, d, i - 1);
    }
  }

  // The check value of the standard: the CRC-32 of the ASCII digits
  // "123456789" is 0xCBF43926. The register values after each digit are
  // given, and each step is checked on its own.

  const CheckInput: Bytes := [0x31, 0x32, 0x33, 0x34, 0x35, 0x36, 0x37, 0x38, 0x39]
  const CheckTrace: seq<bv32> := [0xFFFFFFFF, 0x7C231048, 0xB0ACBB32, 0x77B79C2D, 0x641C1F5C,
    0x340AC5E3, 0xF68D2C9E, 0xAFFC9660, 0x651F2550, 0x340BC6D9]

  lemma {:induction false} FeedByteIs(c: bv32, b: u8, x: bv32, r: bv32)
    requires c ^ (b as bv32) == x && ShiftN(x, 8) == r
    ensures FeedByte(c, b) == r
  {
  }

  lemma {:induction false} CheckSteps1()
    ensures FeedByte(0xFFFFFFFF, 0x31) == 0x7C231048
    ensures FeedByte(0x7C231048, 0x32) == 0xB0ACBB32
    ensures FeedByte(0xB0ACBB32, 0x33) == 0x77B79C2D
  {
    FeedByteIs(0xFFFFFFFF, 0x31, 0xFFFFFFCE, 0x7C231048);
    FeedByteIs(0x7C231048, 0x32, 0x7C23107A, 0xB0ACBB32);
    FeedByteIs(0xB0ACBB32, 0x33, 0xB0ACBB01, 0x77B79C2D);
  }

  lemma {:induction false} CheckSteps2()
    ensures FeedByte(0x77B79C2D, 0x34) == 0x641C1F5C
    ensures FeedByte(0x641C1F5C, 0x35) == 0x340AC5E3
    ensures FeedByte(0x340AC5E3, 0x36) == 0xF68D2C9E
  {
    FeedByteIs(0x77B79C2D, 0x34, 0x77B79C19, 0x641C1F5C);
    FeedByteIs(0x641C1F5C, 0x35, 0x641C1F69, 0x340AC5E3);
    FeedByteIs(0x340AC5E3, 0x36, 0x340AC5D5, 0xF68D2C9E);
  }

  lemma {:induction false} CheckSteps3()
    ensures FeedByte(0xF68D2C9E, 0x37) == 0xAFFC9660
    ensures FeedByte(0xAFFC9660, 0x38) == 0x651F2550
    ensures FeedByte(0x651F2550, 0x39) == 0x340BC6D9
  {
    FeedByteIs(0xF68D2C9E, 0x37, 0xF68D2CA9, 0xAFFC9660);
    FeedByteIs(0xAFFC9660, 0x38, 0xAFFC9658, 0x651F2550);
    FeedByteIs(0x651F2550, 0x39, 0x651F2569, 0x340BC6D9);
  }

  /** The trace of the register over the nine digits. */
  lemma {:induction false} CheckTraceSteps(d: Bytes)
    requires d == CheckInput
    ensures forall k :: 0 <= k < 9 ==> CheckTrace[k + 1] == FeedByte(CheckTrace[k], d[k])
  {
    forall k | 0 <= k < 9
      ensures CheckTrace[k + 1] == FeedByte(CheckTrace[k], d[k])
    {
      if k < 3 {
        CheckSteps1();
        assert k == 0 || k == 1 || k == 2;
      } else if k < 6 {
        CheckSteps2();
        assert k == 3 || k == 4 || k == 5;
      } else {
        CheckSteps3();
        assert k == 6 || k == 7 || k == 8;
      }
    }
  }

  /** The check value (stated for any `d` equal to the digits, so that the
      verifier does not evaluate the CRC of the constant itself). */
  lemma {:induction false} CrcCheckValue(d: Bytes)
    requires d == CheckInput
    ensures Crc(d) == 0xCBF4_3926
  {
    CheckTraceSteps(d);
    RegisterOfTrace(d, CheckTrace, 9);
    assert d[..9] == d;
  }
}
