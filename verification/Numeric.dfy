/** NUMERIC / DECIMAL values (src/tds/numeric.rs). */
module Numerics {
  import opened Bytes

  const TWO_127: int := 0x8000_0000_0000_0000_0000_0000_0000_0000
  const TWO_64: int := 0x1_0000_0000_0000_0000

  type i128 = n: int | -TWO_127 <= n < TWO_127

  const MAX_NUMERIC_SCALE := 38

  type Scale = n: int | 0 <= n <= MAX_NUMERIC_SCALE

  datatype Numeric = Numeric(value: i128, scale: Scale)

  function Abs(n: int): nat
  {
    if n < 0 then -n else n
  }

  /** Machine division, rounding toward zero. */
  function TruncDiv(a: int, b: nat): int
    requires b > 0
  {
    if a >= 0 then a / b else -(-a / b)
  }

  function IntPart(n: Numeric): int
  {
    PowPositive(10, n.scale);
    TruncDiv(n.value, Pow(10, n.scale))
  }

  function DecPart(n: Numeric): int
  {
    n.value - IntPart(n) * Pow(10, n.scale)
  }

  lemma {:induction false} PowPositive(base: nat, k: nat)
    requires base > 0
    ensures Pow(base, k) > 0
  {
    if k > 0 {
      PowPositive(base, k - 1);
    }
  }

  lemma {:induction false} PowAdd(base: nat, a: nat, b: nat)
    ensures Pow(base, a + b) == Pow(base, a) * Pow(base, b)
  {
    if a > 0 {
      PowAdd(base, a - 1, b);
      Regroup(base, Pow(base, a - 1), Pow(base, b));
    }
  }

  lemma {:induction false} PowMonotonic(base: nat, a: nat, b: nat)
    requires base > 0 && a <= b
    ensures Pow(base, a) <= Pow(base, b)
  {
    if a < b {
      PowMonotonic(base, a, b - 1);
      MulLe(1, base, Pow(base, b - 1));
    }
  }

  /** The two parts recompose the value; the fraction is smaller than one and has the value's sign. */
  lemma Parts(n: Numeric)
    ensures var p := Pow(10, n.scale);
      && n.value == IntPart(n) * p + DecPart(n)
      && Abs(n.value) == Abs(IntPart(n)) * p + Abs(DecPart(n))
      && Abs(DecPart(n)) < p
      && Abs(IntPart(n)) == Abs(n.value) / p && Abs(DecPart(n)) == Abs(n.value) % p
  {
    hide Pow, TruncDiv;
    PowPositive(10, n.scale);
    TruncParts(n.value, Pow(10, n.scale));
  }

  lemma TruncParts(v: int, p: nat)
    requires p > 0
    ensures TruncDiv(v, p) == if v < 0 then -(Abs(v) / p) as int else Abs(v) / p
    ensures TruncDiv(v, p) * p == if v < 0 then v + Abs(v) % p else v - Abs(v) % p
    ensures Abs(TruncDiv(v, p)) * p == Abs(v) - Abs(v) % p
    ensures 0 <= Abs(v) % p < p && 0 <= Abs(v) / p
  {
    DivMod(Abs(v), p);
  }

  lemma DivMod(m: nat, p: nat)
    requires p > 0
    ensures m == (m / p) * p + m % p && (-(m / p)) * p == -((m / p) * p)
  {
  }

  lemma Regroup(x: int, y: int, z: int)
    ensures x * (y * z) == (x * y) * z
  {
  }

  lemma MulLe(x: int, y: int, p: nat)
    requires x <= y
    ensures x * p <= y * p
  {
  }

  // --------------------------------------------------------------------- precision

  /** The number of decimal digits, none for zero. */
  function DigitCount(n: nat): nat
  {
    if n == 0 then 0 else 1 + DigitCount(n / 10)
  }

  /** A number lies between the powers of ten its digit count says. */
  lemma {:induction false} DigitCountBounds(n: nat)
    ensures n < Pow(10, DigitCount(n))
    ensures n > 0 ==> Pow(10, DigitCount(n) - 1) <= n
  {
    if n > 0 {
      DigitCountBounds(n / 10);
    }
  }

  function PrecisionSpec(n: Numeric): nat
  {
    var d := DigitCount(Abs(IntPart(n)));
    (if d == 0 then 1 else d) + n.scale
  }

  /** `precision`: the division loop. */
  method Precision(n: Numeric) returns (result: nat)
    ensures result == PrecisionSpec(n)
  {
    result := 0;
    var m := IntPart(n);
    while m != 0
      invariant result + DigitCount(Abs(m)) == DigitCount(Abs(IntPart(n)))
      decreases Abs(m)
    {
      m := TruncDiv(m, 10);
      result := result + 1;
    }
    result := (if result == 0 then 1 else result) + n.scale;
  }

  /**
   * The precision is the digit count of the magnitude, or one more than the scale for a number below
   * one; it is between 1 and 39.
   */
  lemma PrecisionBounds(n: Numeric)
    ensures Abs(n.value) < Pow(10, PrecisionSpec(n))
    ensures 1 <= PrecisionSpec(n) <= 39
    ensures if Abs(n.value) < Pow(10, n.scale) then PrecisionSpec(n) == 1 + n.scale
            else Pow(10, PrecisionSpec(n) - 1) <= Abs(n.value)
  {
    hide Pow, IntPart, DecPart, DigitCount;
    var i := Abs(IntPart(n));
    var d := DigitCount(i);
    Parts(n);
    DigitCountBounds(i);
    PowAdd(10, d, n.scale);
    Between(Abs(n.value), i, Abs(DecPart(n)), Pow(10, n.scale), 0, Pow(10, d));
    if d == 0 {
      PowMonotonic(10, n.scale, 1 + n.scale);
      PowZero(10);
    } else {
      NoDigits();
      PowAdd(10, d - 1, n.scale);
      PowMonotonic(10, n.scale, d - 1 + n.scale);
      Between(Abs(n.value), i, Abs(DecPart(n)), Pow(10, n.scale), Pow(10, d - 1), Pow(10, d));
      TenTo39();
      if d - 1 + n.scale >= 39 {
        PowMonotonic(10, 39, d - 1 + n.scale);
      }
    }
  }

  lemma NoDigits()
    ensures DigitCount(0) == 0
  {
  }

  lemma Between(m: nat, i: nat, f: nat, p: nat, low: nat, high: nat)
    requires m == i * p + f && f < p && low <= i < high
    ensures low * p <= m < high * p
  {
    MulLe(low, i, p);
    MulLe(i + 1, high, p);
  }

  lemma TenTo39()
    ensures Pow(10, 39) > TWO_127
  {
    Powers();
  }

  lemma PowZero(base: nat)
    ensures Pow(base, 0) == 1
  {
  }

  lemma Powers()
    ensures Pow(10, 9) == 1_000_000_000
    ensures Pow(10, 19) == 10_000_000_000_000_000_000
    ensures Pow(10, 28) == 10_000_000_000_000_000_000_000_000_000
    ensures Pow(10, 39) == 1_000_000_000_000_000_000_000_000_000_000_000_000_000
    ensures Pow(0x100, 4) == 0x1_0000_0000 && Pow(0x100, 8) == TWO_64
    ensures Pow(0x100, 12) == 0x1_0000_0000 * TWO_64 && Pow(0x100, 16) == 2 * TWO_127
  {
  }

  // ------------------------------------------------------------------------- codec

  function LenSpec(n: Numeric): nat
  {
    var p := PrecisionSpec(n);
    if 1 <= p <= 9 then 5 else if 10 <= p <= 19 then 9 else if 20 <= p <= 28 then 13 else 17
  }

  /** The chosen width always holds the magnitude. */
  lemma WidthHolds(n: Numeric)
    ensures Abs(n.value) < Pow(0x100, LenSpec(n) - 1)
  {
    PrecisionBounds(n);
    Powers();
    var p := PrecisionSpec(n);
    if p <= 9 {
      PowMonotonic(10, p, 9);
    } else if p <= 19 {
      PowMonotonic(10, p, 19);
    } else if p <= 28 {
      PowMonotonic(10, p, 28);
    }
  }

  /** And it is the smallest of the four that holds every number of that precision. */
  lemma WidthIsSmallest(n: Numeric)
    ensures var all := Pow(10, PrecisionSpec(n));
      && (LenSpec(n) <= 5 <==> all <= 0x1_0000_0000)
      && (LenSpec(n) <= 9 <==> all <= TWO_64)
      && (LenSpec(n) <= 13 <==> all <= 0x1_0000_0000 * TWO_64)
  {
    hide Pow;
    PrecisionBounds(n);
    Powers();
    NextPowers();
    var p := PrecisionSpec(n);
    PowMonotonic(10, p, if p <= 9 then 9 else if p <= 19 then 19 else if p <= 28 then 28 else 39);
    PowMonotonic(10, if p <= 9 then 0 else if p <= 19 then 10 else if p <= 28 then 20 else 29, p);
  }

  lemma NextPowers()
    ensures Pow(10, 10) == 10_000_000_000
    ensures Pow(10, 20) == 100_000_000_000_000_000_000
    ensures Pow(10, 29) == 100_000_000_000_000_000_000_000_000_000
  {
    Powers();
  }

  /** `Numeric::encode`; casts keep the low bytes. */
  method Encode(dst: bytes, n: Numeric) returns (out: bytes)
    ensures out == dst + Wire(n)
  {
    hide LeBytes, PrecisionSpec, Pow;
    var precision := Precision(n);
    PrecisionBounds(n);
    var len: u8 := if precision <= 9 then 5 else if precision <= 19 then 9 else if precision <= 28 then 13 else 17;
    out := dst + [len];
    out := out + [if n.value < 0 then 0 else 1];
    var value := Abs(n.value);
    match len {
      case 5 => out := out + LeBytes(value, 4);
      case 9 => out := out + LeBytes(value, 8);
      case 13 =>
        WideBytes(value);
        out := out + LeBytes(value, 8);
        out := out + LeBytes(value / TWO_64, 4);
      case _ => out := out + LeBytes(value, 16);
    }
  }

  lemma WideBytes(n: nat)
    ensures LeBytes(n, 12) == LeBytes(n, 8) + LeBytes(n / TWO_64, 4)
  {
    LeSplit(n, 8, 4);
    Powers();
  }

  lemma {:induction false} LeSplit(n: nat, a: nat, b: nat)
    ensures Pow(0x100, a) > 0
    ensures LeBytes(n, a + b) == LeBytes(n, a) + LeBytes(n / Pow(0x100, a), b)
  {
    PowPositive(0x100, a);
    if a > 0 {
      LeSplit(n / 0x100, a - 1, b);
      DivDiv(n, 0x100, Pow(0x100, a - 1));
    }
  }

  lemma DivDiv(n: nat, a: nat, b: nat)
    requires a > 0 && b > 0
    ensures a * b > 0 && n / a / b == n / (a * b)
  {
    var k := n / a;
    var q, s, t := k / b, k % b, n % a;
    DivMod(n, a);
    DivMod(k, b);
    MulLe(s, b - 1, a);
    DivUnique(n, a * b, q, s * a + t);
  }

  lemma DivUnique(n: nat, d: nat, q: nat, r: nat)
    requires d > 0 && n == q * d + r && r < d
    ensures n / d == q
  {
    var k := n / d;
    DivMod(n, d);
    if k < q {
      MulLe(k + 1, q, d);
    } else if k > q {
      MulLe(q + 1, k, d);
    }
  }

  datatype DecodeResult =
    | Got(number: Option<Numeric>, rest: bytes)
    | UnexpectedEof
    | InvalidSign
    | InvalidLength
    | TooLarge

  /** `decode_d128` on 12 or 16 bytes. */
  function Magnitude(b: bytes): nat
    requires |b| in {12, 16}
  {
    var low := LeValue(b[..8]);
    if forall i :: 8 <= i < |b| ==> b[i] == 0 then low else low + LeValue(b[8..]) * TWO_64
  }

  /** `Numeric::decode` on the bytes that arrive. */
  function Decode(src: bytes, scale: Scale): DecodeResult
  {
    if src == [] then UnexpectedEof
    else if src[0] == 0 then Got(None, src[1..])
    else if |src| < 2 then UnexpectedEof
    else if src[1] > 1 then InvalidSign
    else if src[0] !in {5, 9, 13, 17} then InvalidLength
    else if |src| < 1 + src[0] then UnexpectedEof
    else
      var b := src[2..1 + src[0]];
      var magnitude := if src[0] <= 9 then LeValue(b) else Magnitude(b);
      if magnitude >= TWO_127 then TooLarge
      else Got(Some(Numeric(if src[1] == 0 then -magnitude else magnitude, scale)), src[1 + src[0]..])
  }

  lemma {:induction false} LeZeros(b: bytes)
    requires forall i :: 0 <= i < |b| ==> b[i] == 0
    ensures LeValue(b) == 0
  {
    if b != [] {
      LeZeros(b[1..]);
    }
  }

  /** The shortcut for a zero high part changes nothing. */
  lemma MagnitudeIsValue(b: bytes)
    requires |b| in {12, 16}
    ensures Magnitude(b) == LeValue(b)
  {
    Powers();
    LeConcat(b[..8], b[8..]);
    assert b == b[..8] + b[8..];
    if forall i :: 8 <= i < |b| ==> b[i] == 0 {
      LeZeros(b[8..]);
    }
  }

  /** A number on the wire in any of the four widths, the narrowest or not. */
  function Form(sign: u8, b: bytes): bytes
    requires |b| < 0xFF
  {
    [|b| + 1, sign] + b
  }

  function Signed(sign: u8, magnitude: nat): int
  {
    var n: int := magnitude;
    if sign == 1 then n else -n
  }

  ghost predicate Sent(src: bytes, value: int, rest: bytes)
  {
    exists sign: u8, b: bytes ::
      && |b| in {4, 8, 12, 16} && src == Form(sign, b) + rest
      && sign in {0, 1} && LeValue(b) < TWO_127
      && value == Signed(sign, LeValue(b))
  }

  /** A value comes out exactly of NULL or of a number sent, in whatever width and whatever follows. */
  lemma DecodeGot(src: bytes, scale: Scale, n: Numeric, rest: bytes)
    ensures Decode(src, scale) == Got(None, rest) <==> src == [0] + rest
    ensures Decode(src, scale) == Got(Some(n), rest) <==> n.scale == scale && Sent(src, n.value, rest)
  {
    hide Decode;
    DecodeNull(src, scale, rest);
    if Decode(src, scale) == Got(Some(n), rest) {
      GotIsSent(src, scale, n, rest);
    } else if Sent(src, n.value, rest) {
      var sign: u8, b: bytes :| |b| in {4, 8, 12, 16} && src == Form(sign, b) + rest
        && sign in {0, 1} && LeValue(b) < TWO_127 && n.value == Signed(sign, LeValue(b));
      DecodeSent(sign, b, rest, scale);
    }
  }

  lemma DecodeNull(src: bytes, scale: Scale, rest: bytes)
    ensures Decode(src, scale) == Got(None, rest) <==> src == [0] + rest
  {
    hide LeValue, Magnitude;
  }

  lemma DecodeSent(sign: u8, b: bytes, rest: bytes, scale: Scale)
    requires |b| in {4, 8, 12, 16} && sign in {0, 1} && LeValue(b) < TWO_127
    ensures Decode(Form(sign, b) + rest, scale) ==
              Got(Some(Numeric(Signed(sign, LeValue(b)), scale)), rest)
  {
    hide LeValue, Magnitude;
    var src := Form(sign, b) + rest;
    assert src[2..1 + src[0]] == b && src[1 + src[0]..] == rest;
    MagnitudeOf(b);
  }

  lemma GotIsSent(src: bytes, scale: Scale, n: Numeric, rest: bytes)
    requires Decode(src, scale) == Got(Some(n), rest)
    ensures n.scale == scale && Sent(src, n.value, rest)
  {
    hide LeValue, Magnitude;
    var b := src[2..1 + src[0]];
    assert src == Form(src[1], b) + rest;
    MagnitudeOf(b);
  }

  lemma MagnitudeOf(b: bytes)
    ensures |b| in {12, 16} ==> Magnitude(b) == LeValue(b)
  {
    if |b| in {12, 16} {
      MagnitudeIsValue(b);
    }
  }

  /** And every refusal comes exactly of its own cause; only the widest form can be too large. */
  lemma DecodeRefused(src: bytes, scale: Scale)
    ensures Decode(src, scale) == InvalidSign <==> |src| >= 2 && src[0] != 0 && src[1] !in {0, 1}
    ensures Decode(src, scale) == InvalidLength <==>
              |src| >= 2 && src[0] !in {0, 5, 9, 13, 17} && src[1] in {0, 1}
    ensures Decode(src, scale) == TooLarge <==>
              |src| >= 18 && src[0] == 17 && src[1] in {0, 1} && LeValue(src[2..18]) >= TWO_127
    ensures Decode(src, scale) == UnexpectedEof <==>
              || src == []
              || (|src| == 1 && src[0] != 0)
              || (src[0] in {5, 9, 13, 17} && src[1] in {0, 1} && |src| < 1 + src[0])
  {
    hide LeValue, Magnitude, Pow;
    Powers();
    if |src| >= 2 && src[0] in {5, 9, 13, 17} && |src| >= 1 + src[0] {
      var b := src[2..1 + src[0]];
      LeBound(b);
      MagnitudeOf(b);
    }
  }

  function Wire(n: Numeric): (r: bytes)
    ensures |r| == 1 + LenSpec(n)
  {
    [LenSpec(n), if n.value < 0 then 0 else 1] + LeBytes(Abs(n.value), LenSpec(n) - 1)
  }

  /**
   * The round trip, whatever follows on the wire: every value but the most negative one comes back
   * with its scale, and that one is rejected.
   */
  lemma NumericRoundTrip(n: Numeric, rest: bytes)
    ensures Decode(Wire(n) + rest, n.scale) == if n.value == -TWO_127 then TooLarge else Got(Some(n), rest)
  {
    hide Pow, LeBytes, LeValue, PrecisionSpec, Magnitude;
    WidthHolds(n);
    var len := LenSpec(n);
    var b := LeBytes(Abs(n.value), len - 1);
    LeRoundTrip(Abs(n.value), len - 1);
    if len > 9 {
      MagnitudeIsValue(b);
    }
  }

  // -------------------------------------------------------------------- formatting

  function Digit(d: nat): char
    requires d < 10
  {
    ('0' as int + d) as char
  }

  /** Decimal digits of a number, at least one. */
  function Show(n: nat): string
  {
    if n < 10 then [Digit(n)] else Show(n / 10) + [Digit(n % 10)]
  }

  /** `{:0pad$}`. */
  function Padded(n: nat, pad: nat): string
  {
    var s := Show(n);
    if |s| >= pad then s else seq(pad - |s|, _ => '0') + s
  }

  /** `Debug` (and `Display`) for `Numeric`. */
  function Format(n: Numeric): string
  {
    (if n.value < 0 then "-" else "") + Show(Abs(IntPart(n))) + "." + Padded(Abs(DecPart(n)), n.scale)
  }

  /** Reading digits: the reference meaning of a digit string. */
  predicate AllDigits(s: string)
  {
    forall i :: 0 <= i < |s| ==> '0' <= s[i] <= '9'
  }

  function DigitsValue(s: string): nat
    requires AllDigits(s)
  {
    if s == "" then 0 else 10 * DigitsValue(s[..|s| - 1]) + (s[|s| - 1] as int - '0' as int)
  }

  /** `s` reads as a decimal: optional sign, integer digits, a point, fraction digits. */
  ghost predicate Denotes(s: string, negative: bool, whole: string, fraction: string)
  {
    s == (if negative then "-" else "") + whole + "." + fraction && whole != "" && fraction != ""
    && AllDigits(whole) && AllDigits(fraction)
  }

  lemma {:induction false} ShowValue(n: nat)
    ensures AllDigits(Show(n)) && DigitsValue(Show(n)) == n
    ensures |Show(n)| == if n == 0 then 1 else DigitCount(n)
  {
    if n < 10 {
    } else {
      ShowValue(n / 10);
    }
  }

  lemma {:induction false} ZerosValue(k: nat, s: string)
    requires AllDigits(s)
    ensures AllDigits(seq(k, _ => '0') + s) && DigitsValue(seq(k, _ => '0') + s) == DigitsValue(s)
    decreases k + |s|
  {
    var t := seq(k, _ => '0') + s;
    if s != "" {
      ZerosValue(k, s[..|s| - 1]);
      assert t[..|t| - 1] == seq(k, _ => '0') + s[..|s| - 1];
    } else if k > 0 {
      ZerosValue(k - 1, "");
      assert t[..|t| - 1] == seq(k - 1, _ => '0') + "";
    }
  }

  /** A number below `10^pad` is padded to exactly `pad` digits (one, if `pad` is zero). */
  lemma PaddedValue(n: nat, pad: nat)
    requires n < Pow(10, pad)
    ensures var s := Padded(n, pad);
      AllDigits(s) && DigitsValue(s) == n && |s| == if pad == 0 then 1 else pad
  {
    hide Pow, Show, DigitCount, DigitsValue;
    ShowValue(n);
    DigitCountBounds(n);
    PowZero(10);
    if n > 0 && DigitCount(n) > pad {
      PowMonotonic(10, pad, DigitCount(n) - 1);
    }
    if |Show(n)| < pad {
      ZerosValue(pad - |Show(n)|, Show(n));
    }
  }

  /** The printed form denotes value / 10^scale exactly, with `scale` fraction digits if any. */
  lemma FormatDenotes(n: Numeric)
    ensures var whole, fraction := Show(Abs(IntPart(n))), Padded(Abs(DecPart(n)), n.scale);
      && Denotes(Format(n), n.value < 0, whole, fraction)
      && |fraction| == (if n.scale == 0 then 1 else n.scale)
      && (DigitsValue(whole) * Pow(10, |fraction|) + DigitsValue(fraction)) * Pow(10, n.scale)
           == Abs(n.value) * Pow(10, |fraction|)
  {
    hide Pow, Show, Padded, DigitsValue, IntPart, DecPart;
    Parts(n);
    ShowValue(Abs(IntPart(n)));
    PaddedValue(Abs(DecPart(n)), n.scale);
    PowZero(10);
    assert |Show(Abs(IntPart(n)))| > 0 by { DigitCountBounds(Abs(IntPart(n))); }
  }

  // ---------------------------------------------------------------------- equality

  predicate FitsI128(n: int)
  {
    -TWO_127 <= n < TWO_127
  }

  function WrapI128(n: int): i128
  {
    var m := n % (2 * TWO_127);
    if m >= TWO_127 then m - 2 * TWO_127 else m
  }

  /** The product `eq` computes, and what it compares it with. */
  function Rescaled(a: Numeric, b: Numeric): (int, i128)
  {
    if a.scale > b.scale then (Pow(10, a.scale - b.scale) * b.value, a.value)
    else if a.scale < b.scale then (Pow(10, b.scale - a.scale) * a.value, b.value)
    else (a.value, b.value)
  }

  predicate RescaleFits(a: Numeric, b: Numeric)
  {
    FitsI128(Rescaled(a, b).0)
  }

  /** `==` where arithmetic overflow wraps. */
  predicate Equal(a: Numeric, b: Numeric)
  {
    WrapI128(Rescaled(a, b).0) == Rescaled(a, b).1
  }

  /** The numbers denoted are the same rational. */
  predicate SameNumber(a: Numeric, b: Numeric)
  {
    a.value * Pow(10, b.scale) == b.value * Pow(10, a.scale)
  }

  lemma SameNumberRescaled(a: Numeric, b: Numeric)
    ensures SameNumber(a, b) <==> Rescaled(a, b).0 == Rescaled(a, b).1
  {
    hide Pow;
    var lo, hi := if a.scale > b.scale then b else a, if a.scale > b.scale then a else b;
    PowAdd(10, hi.scale - lo.scale, lo.scale);
    PowPositive(10, lo.scale);
    RescaleArith(hi.value, lo.value, Pow(10, lo.scale), Pow(10, hi.scale - lo.scale));
    PowZero(10);
  }

  lemma RescaleArith(x: int, y: int, p: nat, q: nat)
    requires p > 0
    ensures x * p == y * (q * p) <==> x == q * y
  {
    Regroup(y, q, p);
    Cancel(x, q * y, p);
  }

  lemma Cancel(x: int, y: int, p: nat)
    requires p > 0
    ensures x * p == y * p <==> x == y
  {
    assert (x + 1) * p == x * p + p && (y + 1) * p == y * p + p;
    if x < y {
      MulLe(x + 1, y, p);
    } else if y < x {
      MulLe(y + 1, x, p);
    }
  }

  /**
   * `==` against rational equality, for all operands: "different" is always right, and "equal" is
   * right exactly when the rescaled product did not overflow.
   */
  lemma EqualIsRational(a: Numeric, b: Numeric)
    ensures !Equal(a, b) ==> !SameNumber(a, b)
    ensures Equal(a, b) ==> (SameNumber(a, b) <==> RescaleFits(a, b))
  {
    hide Pow, SameNumber, Rescaled;
    SameNumberRescaled(a, b);
    WrapExact(Rescaled(a, b).0, Rescaled(a, b).1);
  }

  lemma WrapExact(product: int, other: int)
    requires FitsI128(other)
    ensures FitsI128(product) ==> WrapI128(product) == product
    ensures product == other ==> WrapI128(product) == other
  {
  }

  /** An overflow that answers "equal" for different numbers: 2^90 and 0.00...0 with 38 places. */
  lemma EqualOverflow()
    ensures var a, b := Numeric(0, 38), Numeric(0x400_0000_0000_0000_0000_0000, 0);
      Equal(a, b) && !SameNumber(a, b)
  {
    hide Pow;
    var b := 0x400_0000_0000_0000_0000_0000;
    PowPositive(10, 38);
    TenIsTwoTimesFive(38);
    TwoTo38();
    var five := Pow(5, 38);
    MulMod(five, 2 * TWO_127);
    MulLe(1, b, Pow(10, 38));
  }

  lemma TwoTo38()
    ensures Pow(2, 38) == 0x40_0000_0000
  {
    PowAdd(2, 19, 19);
    PowAdd(2, 9, 10);
  }

  lemma MulMod(k: nat, m: nat)
    requires m > 0
    ensures (k * m) % m == 0
  {
    DivUnique(k * m, m, k, 0);
  }

  lemma {:induction false} TenIsTwoTimesFive(k: nat)
    ensures Pow(10, k) == Pow(2, k) * Pow(5, k)
  {
    if k > 0 {
      TenIsTwoTimesFive(k - 1);
    }
  }

  /** Where no product overflows, `==` is an equivalence. */
  lemma EqualIsEquivalence(a: Numeric, b: Numeric, c: Numeric)
    requires RescaleFits(a, b) && RescaleFits(b, a) && RescaleFits(b, c) && RescaleFits(a, c)
    ensures Equal(a, a)
    ensures Equal(a, b) <==> Equal(b, a)
    ensures Equal(a, b) && Equal(b, c) ==> Equal(a, c)
  {
    EqualIsRational(a, a);
    EqualIsRational(a, b);
    EqualIsRational(b, a);
    EqualIsRational(b, c);
    EqualIsRational(a, c);
    SameNumberTransitive(a, b, c);
  }

  lemma SameNumberTransitive(a: Numeric, b: Numeric, c: Numeric)
    ensures SameNumber(a, b) && SameNumber(b, c) ==> SameNumber(a, c)
  {
    hide Pow;
    PowPositive(10, b.scale);
    if SameNumber(a, b) && SameNumber(b, c) {
      Chain(a.value, b.value, c.value, Pow(10, a.scale), Pow(10, b.scale), Pow(10, c.scale));
    }
  }

  lemma Chain(a: int, b: int, c: int, pa: nat, pb: nat, pc: nat)
    requires pb > 0 && a * pb == b * pa && b * pc == c * pb
    ensures a * pc == c * pa
  {
  }
}
