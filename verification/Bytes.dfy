/** Machine bytes and the fixed-width integer encodings shared by the codecs. */
module Bytes {

  type u8 = n: int | 0 <= n < 0x100
  type u16 = n: int | 0 <= n < 0x1_0000
  type u32 = n: int | 0 <= n < 0x1_0000_0000

  type bytes = seq<u8>

  datatype Option<+T> = None | Some(value: T)

  /** Big-endian 16-bit write and read. */
  function Be16(n: u16): (r: bytes)
    ensures |r| == 2
  {
    [n / 0x100, n % 0x100]
  }

  function FromBe16(b: bytes): u16
    requires |b| >= 2
  {
    b[0] as int * 0x100 + b[1] as int
  }

  /** `base` to the power `k`. */
  function Pow(base: nat, k: nat): nat
  {
    if k == 0 then 1 else base * Pow(base, k - 1)
  }

  /** Little-endian write of the `k` low bytes of `n`: what a truncating cast keeps. */
  function LeBytes(n: nat, k: nat): (r: bytes)
    ensures |r| == k
  {
    if k == 0 then [] else [n % 0x100] + LeBytes(n / 0x100, k - 1)
  }

  /** The number a little-endian byte string denotes. */
  function LeValue(b: bytes): nat
  {
    if b == [] then 0 else b[0] + 0x100 * LeValue(b[1..])
  }

  /** Reading back what was written gives the number modulo the width... */
  lemma {:induction false} LeRoundTrip(n: nat, k: nat)
    requires n < Pow(0x100, k)
    ensures LeValue(LeBytes(n, k)) == n
  {
    if k > 0 {
      LeRoundTrip(n / 0x100, k - 1);
    }
  }

  /** ... and a byte string of width `k` never denotes more than the width allows. */
  lemma {:induction false} LeBound(b: bytes)
    ensures LeValue(b) < Pow(0x100, |b|)
  {
    if b != [] {
      LeBound(b[1..]);
    }
  }

  /** Two-part read: low part then high part. */
  lemma {:induction false} LeConcat(a: bytes, b: bytes)
    ensures LeValue(a + b) == LeValue(a) + Pow(0x100, |a|) * LeValue(b)
  {
    if a == [] {
      assert a + b == b;
    } else {
      assert (a + b)[1..] == a[1..] + b;
      LeConcat(a[1..], b);
    }
  }

  /** Big-endian write of the `k` low bytes of `n`, and its reader. */
  function BeBytes(n: nat, k: nat): (r: bytes)
    ensures |r| == k
  {
    if k == 0 then [] else BeBytes(n / 0x100, k - 1) + [n % 0x100]
  }

  function BeValue(b: bytes): nat
  {
    if b == [] then 0 else 0x100 * BeValue(b[..|b| - 1]) + b[|b| - 1]
  }

  lemma {:induction false} BeRoundTrip(n: nat, k: nat)
    requires n < Pow(0x100, k)
    ensures BeValue(BeBytes(n, k)) == n
  {
    if k > 0 {
      BeRoundTrip(n / 0x100, k - 1);
    }
  }
}
