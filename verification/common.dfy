/**
 * Fixed-width integer types, byte sequences and little-endian layouts shared
 * by the ring log, the envelope codec and the uplink.
 */
module Common {

  datatype Option<+T> = None | Some(value: T)

  /** The C integer types of the firmware, as ranges of mathematical integers. */
  type u8 = x: int | 0 <= x < 0x100
  type u16 = x: int | 0 <= x < 0x1_0000
  type u32 = x: int | 0 <= x < 0x1_0000_0000
  type u64 = x: int | 0 <= x < 0x1_0000_0000_0000_0000
  type i16 = x: int | -0x8000 <= x < 0x8000
  type i32 = x: int | -0x8000_0000 <= x < 0x8000_0000

  type Bytes = seq<u8>

  const Two32: int := 0x1_0000_0000

  function Min(a: int, b: int): (m: int)
    ensures m <= a && m <= b && (m == a || m == b)
  {
    if a <= b then a else b
  }

  /** Unsigned 32-bit increment, as `x++` on a `uint32_t`. */
  function Inc32(x: u32): (r: u32)
    ensures x < Two32 - 1 ==> r == x + 1
    ensures x == Two32 - 1 ==> r == 0
  {
    (x + 1) % Two32
  }

  /** Unsigned 32-bit subtraction, as `a - b` on `uint32_t`. */
  function Sub32(a: u32, b: u32): (r: u32)
    ensures a >= b ==> r == a - b
    ensures a < b ==> r == a - b + Two32
  {
    (a - b) % Two32
  }

  function Pow256(n: nat): (p: nat)
    ensures p >= 1
  {
    if n == 0 then 1 else 256 * Pow256(n - 1)
  }

  /** The `n` little-endian bytes of `x` (the layout of the ESP32), as a
      `memcpy` of an `n`-byte unsigned integer writes them. */
  function LeBytes(x: nat, n: nat): (b: Bytes)
    ensures |b| == n
  {
    if n == 0 then [] else [x % 256] + LeBytes(x / 256, n - 1)
  }

  /** The unsigned integer stored little-endian in `b`. */
  function LeValue(b: Bytes): (v: nat)
    ensures v < Pow256(|b|)
  {
    if b == [] then 0 else b[0] + 256 * LeValue(b[1..])
  }

  lemma {:induction false} LeValueOfLeBytes(x: nat, n: nat)
    requires x < Pow256(n)
    ensures LeValue(LeBytes(x, n)) == x
  {
    if n > 0 {
      var b := LeBytes(x, n);
      assert b[1..] == LeBytes(x / 256, n - 1);
      LeValueOfLeBytes(x / 256, n - 1);
      assert x == x % 256 + 256 * (x / 256);
    }
  }

  /** The bit pattern of a signed `n`-byte value, read as unsigned. */
  function Unsigned(x: int, n: nat): (v: nat)
    requires 0 - Pow256(n) <= x < Pow256(n)
    ensures v < Pow256(n)
    ensures x >= 0 ==> v == x
  {
    if x < 0 then x + Pow256(n) else x
  }

  /** The signed value of an `n`-byte bit pattern (two's complement). */
  function Signed(v: nat, n: nat): (x: int)
    requires n >= 1 && v < Pow256(n)
  {
    if 2 * v >= Pow256(n) then v - Pow256(n) else v
  }

  lemma {:induction false} SignedOfUnsigned(x: int, n: nat)
    requires n >= 1 && 0 - Pow256(n) <= 2 * x < Pow256(n)
    ensures Signed(Unsigned(x, n), n) == x
  {
  }

  function Zeros(n: nat): (z: Bytes)
    ensures |z| == n && forall i :: 0 <= i < n ==> z[i] == 0
  {
    seq(n, _ => 0)
  }

  lemma {:induction false} LeValueOfZeros(n: nat)
    ensures LeValue(Zeros(n)) == 0
  {
    if n > 0 {
      assert Zeros(n)[1..] == Zeros(n - 1);
      LeValueOfZeros(n - 1);
    }
  }

  /** The bytes of an Arduino `String`: each char of the model stands for one byte. */
  function StrBytes(s: string): (b: Bytes)
    ensures |b| == |s|
  {
    seq(|s|, i requires 0 <= i < |s| => (s[i] as int) % 256)
  }

  lemma {:induction false} StrBytesAppend(s: string, t: string)
    ensures StrBytes(s + t) == StrBytes(s) + StrBytes(t)
  {
  }
}
