/**
  Conversion between doubles and the four FP8 formats (float_to_fp8 and fp8_to_float in `tinygrad/dtype.py`).

  A double is its 64-bit pattern. Magnitudes are compared exactly, as integers in units of 2^-1074, the
  smallest positive double. `EncodeIsNearestEven` says that the encoder is round-to-nearest, ties-to-even
  (section 4.3.1 of IEEE 754-2019) onto the finite codes, which also makes it saturating.
 */
module Fp8 {
  import opened IndexMath

  const P52: nat := 0x10_0000_0000_0000

  lemma {:induction false} Pow2Add(a: nat, b: nat)
    ensures Pow2(a + b) == Pow2(a) * Pow2(b)
  {
    if a > 0 {
      Pow2Add(a - 1, b);
      assert Pow2(a) * Pow2(b) == 2 * (Pow2(a - 1) * Pow2(b));
    }
  }

  datatype Format = E4M3 | E5M2 | E4M3FNUZ | E5M2FNUZ

  predicate Fnuz(f: Format) { f == E4M3FNUZ || f == E5M2FNUZ }

  datatype Config = Config(bias: nat, sigBits: nat, mantMask: nat, minDenormHalf: nat, ovfThreshold: nat,
                           maxNorm: nat, minNorm: nat)

  function ConfigOf(f: Format): Config {
    match f
    case E4M3 => Config(7, 4, 0x7, 0x3F50_0000_0000_0000, 0x407D_0000_0000_0000, 0x7E, 0x3F90_0000_0000_0000)
    case E5M2 => Config(15, 3, 0x3, 0x3EE0_0000_0000_0000, 0x40EE_0000_0000_0000 - 1, 0x7B, 0x3F10_0000_0000_0000)
    case E4M3FNUZ => Config(8, 4, 0x7, 0x3F40_0000_0000_0000, 0x406F_0000_0000_0000 - 1, 0x7F, 0x3F80_0000_0000_0000)
    case E5M2FNUZ => Config(16, 3, 0x3, 0x3ED0_0000_0000_0000, 0x40EE_0000_0000_0000 - 1, 0x7F, 0x3F00_0000_0000_0000)
  }

  // ---------------------------------------------------------------- doubles

  newtype Bits = x: int | 0 <= x < 0x1_0000_0000_0000_0000

  function Magnitude(x: Bits): nat { (x as int) % 0x8000_0000_0000_0000 }

  function SignBit(x: Bits): nat { (x as int) / 0x8000_0000_0000_0000 }

  predicate IsFinite(x: Bits) { Magnitude(x) < 0x7FF0_0000_0000_0000 }

  predicate IsInf(x: Bits) { Magnitude(x) == 0x7FF0_0000_0000_0000 }

  function Significand(mag: nat): nat { mag % P52 + if mag / P52 == 0 then 0 else P52 }

  /** The absolute value of a finite double in units of 2^-1074. */
  function Value(mag: nat): nat {
    Significand(mag) * Pow2(if mag / P52 == 0 then 0 else mag / P52 - 1)
  }

  // ---------------------------------------------------------------- the encoder

  /** The case distinction on the magnitude; the result is a code without its sign. */
  function EncodeMagnitude(c: Config, mag: nat): int
    requires 3 <= c.sigBits <= 4
  {
    var halfUlp := Pow2(52 - c.sigBits);
    var exp := mag / P52 - 1023 + c.bias;
    var mantissa := mag / Pow2(53 - c.sigBits) % (c.mantMask + 1);
    if mag <= c.minDenormHalf then 0
    else if mag > c.ovfThreshold then c.maxNorm
    else if mag >= c.minNorm then
      var res := exp * Pow2(c.sigBits - 1) + mantissa;
      var roundBits := mag % (2 * halfUlp);
      if roundBits > halfUlp || (roundBits == halfUlp && mantissa % 2 == 1) then res + 1 else res
    else
      var shift := AtLeast0(1 - exp);
      var res := (mantissa + Pow2(c.sigBits - 1)) / Pow2(shift);
      var half := halfUlp * Pow2(shift);
      var roundBits := SetBit52(mag) % (2 * half);
      if roundBits > half || (roundBits == half && res % 2 == 1) then res + 1 else res
  }

  function AtLeast0(x: int): nat { if x < 0 then 0 else x }

  /** x | (1 << 52) */
  function SetBit52(x: nat): nat { if x / P52 % 2 == 1 then x else x + P52 }

  function Encode(f: Format, x: Bits): int {
    var negative := SignBit(x) == 1;
    if Fnuz(f) && !IsFinite(x) then 0x80
    else if Fnuz(f) && Magnitude(x) == 0 then 0
    else if f == E4M3 && !IsFinite(x) then (if negative then 0xFF else 0x7F)
    else if f == E5M2 && !IsFinite(x) then (if negative then 0x80 else 0) + (if IsInf(x) then 0x7C else 0x7F)
    else
      var res := EncodeMagnitude(ConfigOf(f), Magnitude(x));
      if Fnuz(f) && res == 0 then 0 else res + 128 * SignBit(x)
  }

  // ---------------------------------------------------------------- the decoder

  /** units: the absolute value in units of 2^-1074. */
  datatype Decoded = NaN | Infinity(negative: bool) | Number(negative: bool, units: nat)

  function MantBits(f: Format): nat { ConfigOf(f).sigBits - 1 }

  /** Exponent of the smallest step of the format, in the same units. */
  function StepExponent(f: Format): nat { 1075 - ConfigOf(f).bias - MantBits(f) }

  /** The value with the given exponent and mantissa fields. */
  function FieldValue(f: Format, exp: nat, mantissa: nat): nat {
    if exp == 0 then mantissa * Pow2(StepExponent(f))
    else (Pow2(MantBits(f)) + mantissa) * Pow2(StepExponent(f) + exp - 1)
  }

  /** The value of a magnitude code, as if every code were a number. */
  function CodeValue(f: Format, code: nat): nat {
    FieldValue(f, code / Pow2(MantBits(f)), code % Pow2(MantBits(f)))
  }

  function Decode(f: Format, x: nat): Decoded
    requires x < 256
  {
    var mb := MantBits(f);
    var code := x % 128;
    var negative := x / 128 == 1;
    var expMax := Pow2(8 - ConfigOf(f).sigBits) - 1;
    if Fnuz(f) && x == 0x80 then NaN
    else if code == 0 then Number(negative, 0)
    else if !Fnuz(f) && code / Pow2(mb) == expMax && f == E5M2 then
      (if code % Pow2(mb) != 0 then NaN else Infinity(negative))
    else if !Fnuz(f) && code / Pow2(mb) == expMax && code % Pow2(mb) == Pow2(mb) - 1 then NaN
    else Number(negative, CodeValue(f, code))
  }

  // ---------------------------------------------------------------- what the encoder should do

  /** Code r is the nearest finite code to v; between two nearest ones, the even one. */
  ghost predicate NearestEven(f: Format, v: nat, r: nat) {
    && r <= ConfigOf(f).maxNorm
    && forall d: nat | d <= ConfigOf(f).maxNorm && d != r :: Beats(f, v, r, d)
  }

  ghost predicate Beats(f: Format, v: nat, r: nat, d: nat) {
    || Distance(v, CodeValue(f, r)) < Distance(v, CodeValue(f, d))
    || (Distance(v, CodeValue(f, r)) == Distance(v, CodeValue(f, d)) && r % 2 == 0)
  }

  // ---------------------------------------------------------------- the grid of codes

  /** The distance from a code with this exponent field to the next code. */
  function FieldGap(f: Format, exp: nat): nat { Pow2(StepExponent(f) + if exp == 0 then 0 else exp - 1) }

  function Gap(f: Format, code: nat): nat { FieldGap(f, code / Pow2(MantBits(f))) }

  lemma SmallPowers()
    ensures Pow2(0) == 1 && Pow2(1) == 2 && Pow2(2) == 4 && Pow2(3) == 8 && Pow2(4) == 16 && Pow2(5) == 32
  {
  }

  lemma BigPowers()
    ensures Pow2(48) == 0x1_0000_0000_0000 && Pow2(49) == 0x2_0000_0000_0000 && Pow2(50) == 0x4_0000_0000_0000
    ensures Pow2(52) == P52 && Pow2(53) == 2 * P52
  {
    SmallPowers();
    Pow2Add(4, 4);
    Pow2Add(8, 8);
    Pow2Add(16, 16);
    Pow2Add(32, 16);
    Pow2Add(48, 1);
    Pow2Add(48, 2);
    Pow2Add(48, 4);
    Pow2Add(48, 5);
  }

  lemma MantBitsValue(f: Format)
    ensures Pow2(MantBits(f)) == if f == E4M3 || f == E4M3FNUZ then 8 else 4
  {
    SmallPowers();
  }

  lemma NextInField(f: Format, exp: nat, mant: nat)
    ensures FieldValue(f, exp, mant + 1) == FieldValue(f, exp, mant) + FieldGap(f, exp)
  {
  }

  lemma NextField(f: Format, exp: nat)
    ensures FieldValue(f, exp + 1, 0) == FieldValue(f, exp, Pow2(MantBits(f)))
  {
    var m, k := Pow2(MantBits(f)), StepExponent(f);
    if exp > 0 {
      assert Pow2(k + exp) == 2 * Pow2(k + exp - 1);
      assert m * (2 * Pow2(k + exp - 1)) == (m + m) * Pow2(k + exp - 1);
    }
  }

  lemma CodeStep(f: Format, code: nat)
    ensures CodeValue(f, code + 1) == CodeValue(f, code) + Gap(f, code)
  {
    hide FieldValue, FieldGap, ConfigOf;
    MantBitsValue(f);
    var m := Pow2(MantBits(f));
    var exp, mant := code / m, code % m;
    NextInField(f, exp, mant);
    NextField(f, exp);
    if mant + 1 < m {
      assert (code + 1) / m == exp && (code + 1) % m == mant + 1;
    } else {
      assert (code + 1) / m == exp + 1 && (code + 1) % m == 0;
    }
  }

  lemma GapPositive(f: Format, code: nat)
    ensures Gap(f, code) > 0
  {
  }

  lemma {:induction false} CodesIncrease(f: Format, a: nat, b: nat)
    requires a < b
    ensures CodeValue(f, a) + Gap(f, a) <= CodeValue(f, b)
    ensures CodeValue(f, a) < CodeValue(f, b)
    decreases b
  {
    hide CodeValue, Gap;
    GapPositive(f, a);
    GapPositive(f, b - 1);
    if a + 1 < b {
      CodesIncrease(f, a, b - 1);
      CodeStep(f, b - 1);
    } else {
      CodeStep(f, a);
    }
  }

  /** r is c or c + 1, whichever is nearer to v, or the even one at the midpoint. */
  ghost predicate Rounded(f: Format, v: nat, c: nat, r: nat) {
    && CodeValue(f, c) <= v < CodeValue(f, c + 1)
    && (r == c || r == c + 1)
    && (r == c ==> 2 * (v - CodeValue(f, c)) <= Gap(f, c))
    && (r == c + 1 ==> 2 * (v - CodeValue(f, c)) >= Gap(f, c))
    && (2 * (v - CodeValue(f, c)) == Gap(f, c) ==> r % 2 == 0)
  }

  lemma NeighbourBeats(f: Format, v: nat, c: nat, r: nat, d: nat)
    requires Rounded(f, v, c, r) && d != r
    ensures Beats(f, v, r, d)
  {
    hide CodeValue, Gap;
    CodeStep(f, c);
    if d < c {
      CodesIncrease(f, d, c);
    } else if d > c + 1 {
      CodesIncrease(f, c + 1, d);
    }
  }

  /** Choosing the nearer neighbour chooses the nearest code overall. */
  lemma NearestOfNeighbours(f: Format, v: nat, c: nat, r: nat)
    requires Rounded(f, v, c, r) && r <= ConfigOf(f).maxNorm
    ensures NearestEven(f, v, r)
  {
    hide Rounded;
    forall d: nat | d <= ConfigOf(f).maxNorm && d != r ensures Beats(f, v, r, d) {
      NeighbourBeats(f, v, c, r, d);
    }
  }

  /** Beyond the largest code, that code is the nearest. */
  lemma NearestWhenSaturated(f: Format, v: nat)
    requires v >= CodeValue(f, ConfigOf(f).maxNorm)
    ensures NearestEven(f, v, ConfigOf(f).maxNorm)
  {
    var r := ConfigOf(f).maxNorm;
    forall d: nat | d <= r && d != r ensures Beats(f, v, r, d) {
      CodesIncrease(f, d, r);
    }
  }

  /** The nearest-even code is unique, so NearestEven determines the encoder. */
  lemma NearestEvenUnique(f: Format, v: nat, r1: nat, r2: nat)
    requires NearestEven(f, v, r1) && NearestEven(f, v, r2)
    ensures r1 == r2
  {
    if r1 != r2 {
      var lo, hi := if r1 < r2 then r1 else r2, if r1 < r2 then r2 else r1;
      EvenNeighbours(f, v, lo, hi);
    }
  }

  lemma BetweenIsNearer(f: Format, v: nat, lo: nat, hi: nat)
    requires lo + 1 < hi && Distance(v, CodeValue(f, lo)) == Distance(v, CodeValue(f, hi))
    ensures !Beats(f, v, lo, lo + 1)
  {
    hide CodeValue;
    CodesIncrease(f, lo, lo + 1);
    CodesIncrease(f, lo + 1, hi);
  }

  lemma EvenNeighbours(f: Format, v: nat, lo: nat, hi: nat)
    requires NearestEven(f, v, lo) && NearestEven(f, v, hi)
    ensures lo >= hi
  {
    hide CodeValue;
    if lo < hi {
      assert Beats(f, v, lo, hi) && Beats(f, v, hi, lo);
      BetweenIsNearer(f, v, lo, hi);
    }
  }

  // ---------------------------------------------------------------- the four branches of the encoder

  function BaseExponent(f: Format): nat { 1023 - ConfigOf(f).bias }

  /** The weight of the last kept bit of a normal double in its own mantissa field. */
  function Unit(f: Format): nat { Pow2(52 - MantBits(f)) }

  lemma UnitValue(f: Format)
    ensures Unit(f) == if f == E4M3 || f == E4M3FNUZ then 0x2_0000_0000_0000 else 0x4_0000_0000_0000
    ensures Unit(f) == 2 * Pow2(52 - ConfigOf(f).sigBits)
    ensures Unit(f) * Pow2(MantBits(f)) == P52
  {
    MantBitsValue(f);
    BigPowers();
  }

  /** Rounding decided on the discarded bits rb of a double is rounding of its value. */
  lemma RoundOnBits(f: Format, v: nat, c: nat, r: nat, x: nat, rb: nat, g: nat, u: nat)
    requires u > 0 && rb < g && v == (x + rb) * u && CodeValue(f, c) == x * u && Gap(f, c) == g * u
    requires r == if 2 * rb > g || (2 * rb == g && c % 2 == 1) then c + 1 else c
    ensures Rounded(f, v, c, r)
  {
    hide CodeValue, Gap;
    CodeStep(f, c);
    assert (x + rb) * u == x * u + rb * u;
    Scaled(2 * rb, g, u);
    Scaled(rb, g, u);
    assert 2 * rb * u == 2 * (rb * u);
  }

  lemma Scaled(a: nat, b: nat, u: nat)
    requires u > 0
    ensures a < b ==> a * u < b * u
    ensures a == b ==> a * u == b * u
    ensures a > b ==> a * u > b * u
  {
    if a < b { assert (b - a) * u > 0; }
    if a > b { assert (a - b) * u > 0; }
  }

  /** The fields of a normal double, read as a code of the format with discarded bits. */
  lemma NormalFields(f: Format, mag: nat)
    requires mag >= ConfigOf(f).minNorm
    ensures
      var g, e := Unit(f), mag / P52;
      var exp := e - BaseExponent(f);
      var mantissa, rb := mag / g % Pow2(MantBits(f)), mag % g;
      && e >= 1 && exp >= 1
      && mag == BaseExponent(f) * P52 + (exp * Pow2(MantBits(f)) + mantissa) * g + rb
      && Significand(mag) == (Pow2(MantBits(f)) + mantissa) * g + rb
  {
    MantBitsValue(f);
    UnitValue(f);
  }

  /** A code whose exponent field is positive, in the units of the double with the same exponent. */
  lemma NormalCodeValue(f: Format, exp: nat, mantissa: nat)
    requires exp >= 1 && mantissa < Pow2(MantBits(f))
    ensures
      var q, u := Pow2(MantBits(f)), Pow2(exp + BaseExponent(f) - 1);
      var code := exp * q + mantissa;
      CodeValue(f, code) == (q + mantissa) * Unit(f) * u && Gap(f, code) == Unit(f) * u && code % 2 == mantissa % 2
  {
    hide Pow2, ConfigOf, StepExponent, BaseExponent, Unit, MantBits;
    MantBitsValue(f);
    var q := Pow2(MantBits(f));
    var code := exp * q + mantissa;
    FieldsOfCode(q, exp, mantissa);
    NormalStep(f, exp);
    MulOf(q + mantissa, Pow2(StepExponent(f) + exp - 1), Unit(f), Pow2(exp + BaseExponent(f) - 1));
  }

  lemma NormalStep(f: Format, exp: nat)
    requires exp >= 1
    ensures Pow2(StepExponent(f) + exp - 1) == Unit(f) * Pow2(exp + BaseExponent(f) - 1)
  {
    assert StepExponent(f) + exp - 1 == (52 - MantBits(f)) + (exp + BaseExponent(f) - 1);
    Pow2Add(52 - MantBits(f), exp + BaseExponent(f) - 1);
  }

  lemma MulOf(a: nat, x: nat, b: nat, c: nat)
    requires x == b * c
    ensures a * x == a * b * c
  {
  }

  lemma FieldsOfCode(q: nat, exp: nat, mantissa: nat)
    requires (q == 4 || q == 8) && mantissa < q
    ensures (exp * q + mantissa) / q == exp && (exp * q + mantissa) % q == mantissa
    ensures (exp * q + mantissa) % 2 == mantissa % 2
  {
    if q == 4 {
      FieldsOfCode4(exp, mantissa);
    } else {
      FieldsOfCode8(exp, mantissa);
    }
  }

  lemma FieldsOfCode4(exp: nat, mantissa: nat)
    requires mantissa < 4
    ensures (exp * 4 + mantissa) / 4 == exp && (exp * 4 + mantissa) % 4 == mantissa &&
      (exp * 4 + mantissa) % 2 == mantissa % 2
  {
  }

  lemma FieldsOfCode8(exp: nat, mantissa: nat)
    requires mantissa < 8
    ensures (exp * 8 + mantissa) / 8 == exp && (exp * 8 + mantissa) % 8 == mantissa &&
      (exp * 8 + mantissa) % 2 == mantissa % 2
  {
  }

  /** The overflow threshold is the midpoint above the largest code, or just below it when that code is odd. */
  lemma ThresholdValue(f: Format)
    ensures
      var c := ConfigOf(f);
      var rem := if c.maxNorm % 2 == 0 then Unit(f) / 2 else Unit(f) / 2 - 1;
      c.ovfThreshold == BaseExponent(f) * P52 + c.maxNorm * Unit(f) + rem
    ensures ConfigOf(f).minNorm == (BaseExponent(f) + 1) * P52
    ensures ConfigOf(f).minDenormHalf == (BaseExponent(f) - MantBits(f)) * P52
    ensures Pow2(MantBits(f)) < ConfigOf(f).maxNorm < 128
  {
    UnitValue(f);
    MantBitsValue(f);
  }

  /** Up to the threshold, rounding up never leaves the finite codes. */
  lemma RoundingStaysFinite(f: Format, mag: nat, code: nat, rb: nat)
    requires mag <= ConfigOf(f).ovfThreshold && rb < Unit(f) && mag == BaseExponent(f) * P52 + code * Unit(f) + rb
    ensures (if 2 * rb > Unit(f) || (2 * rb == Unit(f) && code % 2 == 1) then code + 1 else code) <= ConfigOf(f).maxNorm
  {
    UnitValue(f);
    ThresholdValue(f);
  }

  lemma NormalBranch(f: Format, mag: nat)
    requires ConfigOf(f).minNorm <= mag <= ConfigOf(f).ovfThreshold
    ensures EncodeMagnitude(ConfigOf(f), mag) >= 0
    ensures NearestEven(f, Value(mag), EncodeMagnitude(ConfigOf(f), mag))
  {
    hide CodeValue, Gap, Unit, EncodeMagnitude, Rounded, NearestEven, ConfigOf, MantBits, Pow2;
    var q, g := Pow2(MantBits(f)), Unit(f);
    MantBitsValue(f);
    UnitValue(f);
    NormalFields(f, mag);
    var exp := mag / P52 - BaseExponent(f);
    var mantissa, rb := mag / g % q, mag % g;
    var code := exp * q + mantissa;
    NormalCodeValue(f, exp, mantissa);
    var r := if 2 * rb > g || (2 * rb == g && code % 2 == 1) then code + 1 else code;
    EncodeNormal(f, mag);
    RoundOnBits(f, Value(mag), code, r, (q + mantissa) * g, rb, g, Pow2(mag / P52 - 1));
    RoundingStaysFinite(f, mag, code, rb);
    NearestOfNeighbours(f, Value(mag), code, r);
  }

  /** The third branch of the encoder, in the terms used here. */
  lemma EncodeNormal(f: Format, mag: nat)
    requires ConfigOf(f).minNorm <= mag <= ConfigOf(f).ovfThreshold
    ensures
      var q, g := Pow2(MantBits(f)), Unit(f);
      var exp := mag / P52 - BaseExponent(f);
      var mantissa, rb := mag / g % q, mag % g;
      exp >= 1 &&
      EncodeMagnitude(ConfigOf(f), mag) ==
        exp * q + mantissa + if 2 * rb > g || (2 * rb == g && mantissa % 2 == 1) then 1 else 0
  {
    UnitValue(f);
    MantBitsValue(f);
    ThresholdValue(f);
    NormalFields(f, mag);
    assert Pow2(53 - ConfigOf(f).sigBits) == Unit(f);
    assert ConfigOf(f).mantMask + 1 == Pow2(MantBits(f));
  }

  // the subnormal branch

  /** The fields of a double below the normal range: the implicit bit set, and how far to shift. */
  lemma SubnormalFields(f: Format, mag: nat)
    requires ConfigOf(f).minDenormHalf < mag < ConfigOf(f).minNorm
    ensures
      var e := mag / P52;
      var shift := BaseExponent(f) + 1 - e;
      && e >= 1 && 1 <= shift <= MantBits(f) + 1
      && Significand(mag) == P52 + mag % P52
  {
    ThresholdValue(f);
    MantBitsValue(f);
  }

  lemma SetBit52Mod(mag: nat, m: nat)
    requires m > 0 && 2 * P52 % m == 0
    ensures SetBit52(mag) % m == (P52 + mag % P52) % m
  {
    var e := mag / P52;
    var t, h := P52 + mag % P52, 2 * P52 / m;
    var k := e / 2;
    // in both cases an even multiple of 2^52 is added to t
    assert SetBit52(mag) == t + k * (2 * P52);
    assert 2 * P52 == m * h;
    SameRemainder(t, m, h, k);
  }

  lemma SameRemainder(t: nat, m: nat, h: nat, k: nat)
    requires m > 0
    ensures (t + k * (m * h)) % m == t % m
  {
    var q, r := t / m, t % m;
    assert t + k * (m * h) == m * (q + k * h) + r by {
      assert k * (m * h) == m * (k * h);
      assert m * (q + k * h) == m * q + m * (k * h);
    }
    DivModUnique(t + k * (m * h), m, q + k * h, r);
  }

  /** The weight of the last kept bit after the shift. */
  function ShiftedUnit(f: Format, shift: nat): (u: nat)
    ensures u > 0
  {
    Unit(f) * Pow2(shift)
  }

  lemma ShiftedUnitValue(f: Format, shift: nat)
    requires 1 <= shift <= MantBits(f) + 1
    ensures 2 * P52 % ShiftedUnit(f, shift) == 0 && ShiftedUnit(f, shift) % 2 == 0
    ensures ShiftedUnit(f, shift) * Pow2(MantBits(f)) >= 2 * P52
    ensures Pow2(53 - ConfigOf(f).sigBits) == Unit(f) && ConfigOf(f).mantMask + 1 == Pow2(MantBits(f))
    ensures 2 * (Pow2(52 - ConfigOf(f).sigBits) * Pow2(shift)) == ShiftedUnit(f, shift)
  {
    UnitValue(f);
    MantBitsValue(f);
    SmallPowers();
    assert shift == 1 || shift == 2 || shift == 3 || shift == 4;
  }

  /** The fourth branch of the encoder, in the terms used here. */
  lemma EncodeSubnormal(f: Format, mag: nat)
    requires ConfigOf(f).minDenormHalf < mag < ConfigOf(f).minNorm
    ensures
      var t := P52 + mag % P52;
      var shift := BaseExponent(f) + 1 - mag / P52;
      1 <= shift <= MantBits(f) + 1 &&
      var g := ShiftedUnit(f, shift);
      g > 0 && EncodeMagnitude(ConfigOf(f), mag) ==
        t / g + if 2 * (t % g) > g || (2 * (t % g) == g && t / g % 2 == 1) then 1 else 0
  {
    hide Pow2, ConfigOf, Unit, ShiftedUnit, SetBit52;
    SubnormalFields(f, mag);
    var shift := BaseExponent(f) + 1 - mag / P52;
    var t, u, g := P52 + mag % P52, Unit(f), ShiftedUnit(f, shift);
    ThresholdBelow(f);
    ShiftedUnitValue(f, shift);
    ShiftedUnitParts(f, shift);
    SetBit52Mod(mag, g);
    ImplicitBit(f, mag);
    DivDiv(t, u, Pow2(shift));
  }

  lemma ShiftedUnitParts(f: Format, shift: nat)
    ensures ShiftedUnit(f, shift) == Unit(f) * Pow2(shift) && Unit(f) > 0 && Pow2(shift) > 0
  {
  }

  /** The mantissa field with its implicit bit is the top of the 53-bit significand. */
  lemma ImplicitBit(f: Format, mag: nat)
    ensures Unit(f) > 0 && mag / Unit(f) % Pow2(MantBits(f)) + Pow2(MantBits(f)) == (P52 + mag % P52) / Unit(f)
    ensures Pow2(ConfigOf(f).sigBits - 1) == Pow2(MantBits(f))
  {
    UnitValue(f);
    TopOfSignificand(mag, Unit(f), Pow2(MantBits(f)));
  }

  lemma TopOfSignificand(mag: nat, u: nat, q: nat)
    requires u > 0 && q > 0 && u * q == P52
    ensures mag / u % q + q == (P52 + mag % P52) / u
  {
    var e, m := mag / P52, mag % P52;
    var a, b := m / u, m % u;
    DivModOf(m, u);
    RowOf(m, u, q);
    assert mag == u * (q * e + a) + b by {
      assert u * (q * e + a) == u * (q * e) + u * a;
      assert u * (q * e) == (u * q) * e;
    }
    DivModUnique(mag, u, q * e + a, b);
    DivModUnique(q * e + a, q, e, a);
    assert P52 + m == u * (q + a) + b;
    DivModUnique(P52 + m, u, q + a, b);
  }

  lemma ThresholdBelow(f: Format)
    ensures ConfigOf(f).minNorm <= ConfigOf(f).ovfThreshold
  {
  }

  lemma SubnormalCodeValue(f: Format, c: nat, shift: nat, e: nat)
    requires c < Pow2(MantBits(f)) && e >= 1 && e + shift == BaseExponent(f) + 1
    ensures
      var g, u := ShiftedUnit(f, shift), Pow2(e - 1);
      CodeValue(f, c) == c * g * u && Gap(f, c) == g * u
  {
    hide Pow2, Unit;
    assert c / Pow2(MantBits(f)) == 0 && c % Pow2(MantBits(f)) == c by {
      DivModUnique(c, Pow2(MantBits(f)), 0, c);
    }
    assert StepExponent(f) == (52 - MantBits(f)) + (shift + (e - 1));
    UnitIsPower(f);
    Pow2Add(52 - MantBits(f), shift + (e - 1));
    Pow2Add(shift, e - 1);
    Regroup3(Unit(f), Pow2(shift), Pow2(e - 1));
    MulOf(c, Pow2(StepExponent(f)), ShiftedUnit(f, shift), Pow2(e - 1));
  }

  lemma UnitIsPower(f: Format)
    ensures Unit(f) == Pow2(52 - MantBits(f))
  {
  }

  lemma Regroup3(a: nat, b: nat, c: nat)
    ensures a * (b * c) == (a * b) * c
  {
  }

  lemma SubnormalBranch(f: Format, mag: nat)
    requires ConfigOf(f).minDenormHalf < mag < ConfigOf(f).minNorm
    ensures EncodeMagnitude(ConfigOf(f), mag) >= 0
    ensures NearestEven(f, Value(mag), EncodeMagnitude(ConfigOf(f), mag))
  {
    hide Pow2, ConfigOf, Unit, ShiftedUnit, MantBits, CodeValue, Gap, EncodeMagnitude, Rounded, NearestEven;
    SubnormalFields(f, mag);
    EncodeSubnormal(f, mag);
    var e := mag / P52;
    var shift := BaseExponent(f) + 1 - e;
    var t, g := P52 + mag % P52, ShiftedUnit(f, shift);
    var c, rb := t / g, t % g;
    DivModOf(t, g);
    ShiftedUnitValue(f, shift);
    SubnormalCodeSmall(f, t, g);
    SubnormalCodeValue(f, c, shift, e);
    var r := if 2 * rb > g || (2 * rb == g && c % 2 == 1) then c + 1 else c;
    assert t == c * g + rb;
    RoundOnBits(f, Value(mag), c, r, c * g, rb, g, Pow2(e - 1));
    ThresholdValue(f);
    NearestOfNeighbours(f, Value(mag), c, r);
  }

  lemma SubnormalCodeSmall(f: Format, t: nat, g: nat)
    requires g > 0 && t < 2 * P52 && g * Pow2(MantBits(f)) >= 2 * P52
    ensures t / g < Pow2(MantBits(f))
  {
    RowOf(t, g, Pow2(MantBits(f)));
  }

  // the outer branches

  lemma Pow2Mono(a: nat, b: nat)
    requires a <= b
    ensures Pow2(a) <= Pow2(b)
  {
    Pow2Add(a, b - a);
    assert Pow2(a) * Pow2(b - a) >= Pow2(a) * 1;
  }

  lemma ValueBounds(mag: nat)
    ensures Value(mag) < P52 * Pow2(mag / P52)
    ensures mag / P52 >= 1 ==> Value(mag) >= P52 * Pow2(mag / P52 - 1)
  {
    var e, s := mag / P52, Significand(mag);
    if e >= 1 {
      var u := Pow2(e - 1);
      MulMono(u, s + 1, 2 * P52);
      MulMono(u, P52, s);
      assert Pow2(e) == 2 * u;
    } else {
      assert Pow2(0) == 1;
    }
  }

  /** The bit patterns of the magnitudes are in the order of their values. */
  lemma ValueMonotone(a: nat, b: nat)
    requires a <= b
    ensures Value(a) <= Value(b)
    ensures a < b ==> Value(a) < Value(b)
  {
    hide Pow2;
    var e1, e2 := a / P52, b / P52;
    if e1 == e2 {
      var u := Pow2(if e1 == 0 then 0 else e1 - 1);
      assert Significand(a) - a % P52 == Significand(b) - b % P52;
      MulMono(u, Significand(a), Significand(b));
      Scaled(Significand(a), Significand(b), u);
    } else {
      ValueBounds(a);
      ValueBounds(b);
      Pow2Mono(e1, e2 - 1);
      MulMono(P52, Pow2(e1), Pow2(e2 - 1));
    }
  }

  /** The threshold below which everything becomes 0 is half of the smallest step. */
  lemma HalfStepValue(f: Format)
    ensures Value(ConfigOf(f).minDenormHalf) == Pow2(StepExponent(f) - 1)
  {
    ThresholdValue(f);
    var e := BaseExponent(f) - MantBits(f);
    var edge := e * P52;
    assert edge / P52 == e && edge % P52 == 0;
    var k := StepExponent(f);
    BigPowers();
    Pow2Add(52, e - 1);
    assert 52 + (e - 1) == k - 1;
  }

  lemma ZeroBranch(f: Format, mag: nat)
    requires mag <= ConfigOf(f).minDenormHalf
    ensures NearestEven(f, Value(mag), 0)
  {
    ValueMonotone(mag, ConfigOf(f).minDenormHalf);
    HalfStepValue(f);
    SmallestStep(f);
    hide Value, Pow2, NearestEven;
    assert Rounded(f, Value(mag), 0, 0);
    NearestOfNeighbours(f, Value(mag), 0, 0);
  }

  lemma SmallestStep(f: Format)
    ensures CodeValue(f, 0) == 0 && CodeValue(f, 1) == Gap(f, 0) == Pow2(StepExponent(f))
    ensures Pow2(StepExponent(f)) == 2 * Pow2(StepExponent(f) - 1)
  {
    MantBitsValue(f);
    CodeStep(f, 0);
  }

  lemma SaturatedBranch(f: Format, mag: nat)
    requires mag > ConfigOf(f).ovfThreshold
    ensures NearestEven(f, Value(mag), ConfigOf(f).maxNorm)
  {
    hide Value, CodeValue, NearestEven, Pow2, ConfigOf, BaseExponent, MantBits;
    var bits := BaseExponent(f) * P52 + ConfigOf(f).maxNorm * Unit(f);
    ThresholdValue(f);
    UnitValue(f);
    hide Unit;
    ExactNormal(f, ConfigOf(f).maxNorm);
    ValueMonotone(bits, mag);
    NearestWhenSaturated(f, Value(mag));
  }

  /** The double that equals a code with a positive exponent field. */
  lemma ExactNormal(f: Format, code: nat)
    requires Pow2(MantBits(f)) <= code < 128
    ensures Value(BaseExponent(f) * P52 + code * Unit(f)) == CodeValue(f, code)
  {
    hide CodeValue, Gap, ConfigOf, Unit, MantBits, Pow2;
    var q, g := Pow2(MantBits(f)), Unit(f);
    UnitValue(f);
    MantBitsValue(f);
    var exp, mantissa := code / q, code % q;
    var mag := BaseExponent(f) * P52 + code * g;
    DivModOf(code, q);
    MulMono(q, exp, 0);
    ExactFields(BaseExponent(f), exp, mantissa, q, g, code);
    NormalCodeValue(f, exp, mantissa);
  }

  lemma ExactFields(base: nat, exp: nat, mantissa: nat, q: nat, g: nat, code: nat)
    requires q * g == P52 && mantissa < q && exp >= 1 && code == q * exp + mantissa
    ensures (base * P52 + code * g) / P52 == base + exp
    ensures Significand(base * P52 + code * g) == (q + mantissa) * g
  {
    RowBelow(g, mantissa, 0, q);
    assert code * g == (q * exp) * g + mantissa * g;
    assert (q * exp) * g == (q * g) * exp;
    assert g * mantissa == mantissa * g && g * q == q * g;
    DivModUnique(base * P52 + code * g, P52, base + exp, mantissa * g);
    assert (q + mantissa) * g == q * g + mantissa * g;
  }

  /** Every finite magnitude is rounded to the nearest code, ties to even. */
  lemma MagnitudeIsNearestEven(f: Format, mag: nat)
    ensures EncodeMagnitude(ConfigOf(f), mag) >= 0
    ensures NearestEven(f, Value(mag), EncodeMagnitude(ConfigOf(f), mag))
  {
    hide NearestEven, Value;
    if mag <= ConfigOf(f).minDenormHalf {
      ZeroBranch(f, mag);
    } else if mag > ConfigOf(f).ovfThreshold {
      SaturatedBranch(f, mag);
    } else if mag >= ConfigOf(f).minNorm {
      NormalBranch(f, mag);
    } else {
      SubnormalBranch(f, mag);
    }
  }

  // ---------------------------------------------------------------- the main results

  /** Codes up to the largest finite one decode to their value, in either sign. */
  lemma DecodeFinite(f: Format, code: nat, sign: nat)
    requires code <= ConfigOf(f).maxNorm && sign <= 1 && !(Fnuz(f) && code == 0 && sign == 1)
    ensures code + 128 * sign < 256
    ensures Decode(f, code + 128 * sign) == Number(sign == 1, CodeValue(f, code))
  {
    hide CodeValue;
    ThresholdValue(f);
    MantBitsValue(f);
    SmallPowers();
    var x := code + 128 * sign;
    assert x % 128 == code && x / 128 == sign;
    if code == 0 {
      SmallestStep(f);
    }
  }

  /** The code of a finite double is the nearest finite code, with its sign unless it is a FNUZ zero. */
  lemma EncodeIsNearestCode(f: Format, x: Bits)
    requires IsFinite(x)
    ensures 0 <= Encode(f, x) < 256
    ensures NearestEven(f, Value(Magnitude(x)), Encode(f, x) % 128)
    ensures Decode(f, Encode(f, x)) ==
      Number(SignBit(x) == 1 && !(Fnuz(f) && Encode(f, x) % 128 == 0), CodeValue(f, Encode(f, x) % 128))
  {
    hide CodeValue, Value, EncodeMagnitude, NearestEven, Pow2;
    var mag := Magnitude(x);
    MagnitudeIsNearestEven(f, mag);
    var r: nat := EncodeMagnitude(ConfigOf(f), mag);
    NearestInRange(f, Value(mag), r);
    if Fnuz(f) && mag == 0 {
      ZeroBranch(f, mag);
      NearestEvenUnique(f, Value(mag), 0, r);
    }
    var sign := if Fnuz(f) && r == 0 then 0 else SignBit(x);
    assert Encode(f, x) == r + 128 * sign;
    hide Encode;
    DecodeFinite(f, r, sign);
    hide Decode, ConfigOf;
  }

  lemma NearestInRange(f: Format, v: nat, r: nat)
    requires NearestEven(f, v, r)
    ensures r <= ConfigOf(f).maxNorm
  {
  }

  /** What happens to infinities and NaNs: FNUZ has one NaN code, E4M3 keeps only the sign, E5M2 keeps the kind. */
  lemma EncodeSpecial(f: Format, x: Bits)
    requires !IsFinite(x)
    ensures 0 <= Encode(f, x) < 256
    ensures Decode(f, Encode(f, x)) ==
      if f == E5M2 && IsInf(x) then Infinity(SignBit(x) == 1) else NaN
  {
    hide CodeValue, EncodeMagnitude, Pow2, Magnitude;
    MantBitsValue(f);
    ExponentRange(f);
    assert 0x7F / 8 == 15 && 0x7F / 4 == 31 && 0x7C / 4 == 31;
  }

  lemma ExponentRange(f: Format)
    ensures Pow2(8 - ConfigOf(f).sigBits) == if f == E4M3 || f == E4M3FNUZ then 16 else 32
  {
    SmallPowers();
  }

  /** A code that is a number, and the double equal to it. */
  ghost predicate SameNumber(f: Format, code: nat, x: Bits)
    requires code < 256
  {
    && IsFinite(x) && Decode(f, code).Number?
    && Value(Magnitude(x)) == Decode(f, code).units && (SignBit(x) == 1 <==> Decode(f, code).negative)
  }

  lemma NumberCodes(f: Format, code: nat)
    requires code < 256 && Decode(f, code).Number?
    ensures code % 128 <= ConfigOf(f).maxNorm && !(Fnuz(f) && code == 128)
    ensures Decode(f, code) == Number(code / 128 == 1, CodeValue(f, code % 128))
  {
    hide CodeValue;
    MantBitsValue(f);
    SmallPowers();
    if code % 128 == 0 {
      SmallestStep(f);
    }
  }

  /** Code r is a number nearest to v; between two nearest ones, the one whose code is even. */
  ghost predicate NearestNumber(f: Format, v: nat, r: nat) {
    && r < 128 && Decode(f, r).Number?
    && forall d: nat | d < 128 && d != r && Decode(f, d).Number? ::
      var mine, other := Distance(v, Decode(f, r).units), Distance(v, Decode(f, d).units);
      mine < other || (mine == other && r % 2 == 0)
  }

  /** The positive numbers are the codes up to the largest. */
  lemma PositiveNumbers(f: Format, d: nat)
    requires d < 128
    ensures Decode(f, d).Number? <==> d <= ConfigOf(f).maxNorm
    ensures Decode(f, d).Number? ==> Decode(f, d).units == CodeValue(f, d)
  {
    hide Decode, CodeValue;
    if Decode(f, d).Number? {
      NumberCodes(f, d);
    } else if d <= ConfigOf(f).maxNorm {
      DecodeFinite(f, d, 0);
    }
  }

  lemma NearestCodeIsNumber(f: Format, v: nat, r: nat)
    requires NearestEven(f, v, r)
    ensures NearestNumber(f, v, r) && Decode(f, r).units == CodeValue(f, r)
  {
    hide Decode, CodeValue, ConfigOf, Pow2, Fnuz;
    ThresholdValue(f);
    PositiveNumbers(f, r);
    forall d: nat | d < 128 && d != r && Decode(f, d).Number?
      ensures Beats(f, v, r, d) && Decode(f, d).units == CodeValue(f, d)
    {
      PositiveNumbers(f, d);
    }
  }

  /**
    float_to_fp8 rounds every finite double to the nearest number of the format, ties to even, and keeps
    its sign, except that the FNUZ formats have no negative zero. A finite double never becomes an
    infinity or a NaN.
   */
  lemma EncodeIsNearestEven(f: Format, x: Bits)
    requires x as int % 0x8000_0000_0000_0000 < 0x7FF0_0000_0000_0000
    ensures 0 <= Encode(f, x) < 256
    ensures NearestNumber(f, Value(Magnitude(x)), Encode(f, x) % 128)
    ensures Decode(f, Encode(f, x)) ==
      Number(SignBit(x) == 1 && !(Fnuz(f) && Encode(f, x) % 128 == 0), Decode(f, Encode(f, x) % 128).units)
  {
    hide CodeValue, Value, Encode, Decode, NearestEven, NearestNumber;
    EncodeIsNearestCode(f, x);
    NearestCodeIsNumber(f, Value(Magnitude(x)), Encode(f, x) % 128);
  }

  // ---------------------------------------------------------------- the formats

  /** The number of a code with q steps in every binade and the smallest step 2^e. */
  function Stepped(q: nat, e: nat, code: nat): nat
    requires q > 0
  {
    if code < q then code * Pow2(e) else (q + code % q) * Pow2(e + code / q - 1)
  }

  /** Mantissa bits as steps of a binade, and the smallest step as a power of two. */
  lemma CodeValueIsStepped(f: Format, c: nat, one: nat)
    requires one == 1074
    ensures CodeValue(f, c) ==
      match f
      case E4M3 => Stepped(8, one - 9, c)
      case E5M2 => Stepped(4, one - 16, c)
      case E4M3FNUZ => Stepped(8, one - 10, c)
      case E5M2FNUZ => Stepped(4, one - 17, c)
  {
    hide Pow2;
    MantBitsValue(f);
    var q := Pow2(MantBits(f));
    assert StepExponent(f) == one - match f case E4M3 => 9 case E5M2 => 16 case E4M3FNUZ => 10 case E5M2FNUZ => 17;
    DivModOf(c, q);
    if c < q {
      DivModUnique(c, q, 0, c);
    }
    hide ConfigOf, StepExponent;
  }

  /**
    The value of every code of every format. One is the exponent of 1.0 in the units used here, so that
    the smallest numbers are 2^-9, 2^-16, 2^-10 and 2^-17.
   */
  lemma DecodedValue(f: Format, code: nat, one: nat)
    requires code < 256 && one == 1074
    ensures
      var negative, c := code >= 128, code % 128;
      Decode(f, code) ==
        match f
        case E4M3 => if c == 127 then NaN else Number(negative, Stepped(8, one - 9, c))
        case E5M2 =>
          if c > 124 then NaN else if c == 124 then Infinity(negative)
          else Number(negative, Stepped(4, one - 16, c))
        case E4M3FNUZ => if code == 128 then NaN else Number(negative, Stepped(8, one - 10, c))
        case E5M2FNUZ => if code == 128 then NaN else Number(negative, Stepped(4, one - 17, c))
  {
    hide Pow2, Stepped, CodeValue;
    MantBitsValue(f);
    ExponentRange(f);
    CodeValueIsStepped(f, code % 128, one);
    SteppedZero(one);
  }

  lemma SteppedZero(one: nat)
    requires one == 1074
    ensures Stepped(8, one - 9, 0) == Stepped(4, one - 16, 0) == Stepped(8, one - 10, 0) == Stepped(4, one - 17, 0) == 0
  {
  }

  /** The code of 1.0 in the format. */
  function OneCode(f: Format): nat {
    match f case E4M3 => 0x38 case E5M2 => 0x3C case E4M3FNUZ => 0x40 case E5M2FNUZ => 0x40
  }

  /** The largest code and the number it stands for. */
  function LargestCode(f: Format): nat {
    match f case E4M3 => 0x7E case E5M2 => 0x7B case E4M3FNUZ => 0x7F case E5M2FNUZ => 0x7F
  }

  function LargestNumber(f: Format): nat {
    match f case E4M3 => 448 case E5M2 => 57344 case E4M3FNUZ => 240 case E5M2FNUZ => 57344
  }

  lemma OneAndLargest(f: Format, one: nat)
    requires one == 1074
    ensures Decode(f, OneCode(f)) == Number(false, Pow2(one))
    ensures Decode(f, LargestCode(f)) == Number(false, LargestNumber(f) * Pow2(one))
  {
    hide Decode, Pow2, Stepped;
    DecodedValue(f, OneCode(f), one);
    DecodedValue(f, LargestCode(f), one);
    SmallPowers();
    Pow2Add(8, 5);
    Pow2Add(4, 4);
    Pow2Add(one - 3, 3);
    Pow2Add(one - 2, 2);
    match f
    case E4M3 => SteppedCode(8, one - 9, 0x38, one - 3, 0); SteppedCode(8, one - 9, 0x7E, one, 5);
    case E5M2 => SteppedCode(4, one - 16, 0x3C, one - 2, 0); SteppedCode(4, one - 16, 0x7B, one, 13);
    case E4M3FNUZ => SteppedCode(8, one - 10, 0x40, one - 3, 0); SteppedCode(8, one - 10, 0x7F, one, 4);
    case E5M2FNUZ => SteppedCode(4, one - 17, 0x40, one - 2, 0); SteppedCode(4, one - 17, 0x7F, one, 13);
  }

  lemma SteppedCode(q: nat, e: nat, code: nat, base: nat, k: nat)
    requires 0 < q <= code && e + code / q - 1 == base + k
    ensures Stepped(q, e, code) == (q + code % q) * Pow2(k) * Pow2(base)
    ensures Stepped(q, e, code) == (q + code % q) * Pow2(base + k)
  {
    hide Pow2;
    Pow2Add(base, k);
    MulOf(q + code % q, Pow2(base + k), Pow2(k), Pow2(base));
  }

  /** The codes of the doubles 1.0, the largest finite one and infinity. */
  lemma EncodedExtremes(f: Format)
    ensures Encode(f, 0x3FF0_0000_0000_0000) == OneCode(f)
    ensures Encode(f, 0x7FEF_FFFF_FFFF_FFFF) == LargestCode(f)
    ensures Encode(f, 0x7FF0_0000_0000_0000) ==
      match f case E4M3 => 0x7F case E5M2 => 0x7C case E4M3FNUZ => 0x80 case E5M2FNUZ => 0x80
  {
    hide EncodeMagnitude;
    EncodedOne(f);
    EncodedLargest(f);
  }

  lemma EncodedOne(f: Format)
    ensures EncodeMagnitude(ConfigOf(f), 0x3FF0_0000_0000_0000) == OneCode(f)
  {
    hide Pow2;
    BigPowers();
    SmallPowers();
    var half := Pow2(52 - ConfigOf(f).sigBits);
    assert 0x3FF0_0000_0000_0000 % (2 * half) == 0;
    assert 0x3FF0_0000_0000_0000 / P52 == 1023;
    assert 0x3FF0_0000_0000_0000 / Pow2(53 - ConfigOf(f).sigBits) % (ConfigOf(f).mantMask + 1) == 0;
  }

  lemma EncodedLargest(f: Format)
    ensures EncodeMagnitude(ConfigOf(f), 0x7FEF_FFFF_FFFF_FFFF) == LargestCode(f)
  {
    hide Pow2;
  }

  /** Encoding the value of any code that is a number gives the code back. */
  lemma EncodeInvertsDecode(f: Format, code: nat, x: Bits)
    requires code < 256 && SameNumber(f, code, x)
    ensures Encode(f, x) == code
  {
    NumberCodes(f, code);
    EncodeIsNearestCode(f, x);
    hide CodeValue, Value, Encode, Decode;
    ExactIsNearest(f, CodeValue(f, code % 128), code % 128);
    NearestEvenUnique(f, CodeValue(f, code % 128), code % 128, Encode(f, x) % 128);
    SignOfCode(f, x, code);
  }

  /** A code's own value is nearest to it. */
  lemma ExactIsNearest(f: Format, v: nat, r: nat)
    requires r <= ConfigOf(f).maxNorm && v == CodeValue(f, r)
    ensures NearestEven(f, v, r)
  {
    GapPositive(f, r);
    CodeStep(f, r);
    assert Rounded(f, v, r, r);
    NearestOfNeighbours(f, v, r, r);
  }

  lemma SignOfCode(f: Format, x: Bits, code: nat)
    requires IsFinite(x) && code < 256 && 0 <= Encode(f, x) < 256 && Encode(f, x) % 128 == code % 128
    requires SignBit(x) == code / 128 && !(Fnuz(f) && code == 128)
    ensures Encode(f, x) == code
  {
    var res := FiniteCode(f, x);
    hide Encode, EncodeMagnitude, Magnitude;
  }

  /** The code of a finite double: a magnitude code with the sign, except that FNUZ formats have one zero. */
  lemma FiniteCode(f: Format, x: Bits) returns (res: nat)
    requires IsFinite(x)
    ensures res < 128 && (Encode(f, x) == res + 128 * SignBit(x) || (Fnuz(f) && Encode(f, x) == 0))
  {
    hide EncodeMagnitude;
    MagnitudeIsNearestEven(f, Magnitude(x));
    NearestInRange(f, Value(Magnitude(x)), EncodeMagnitude(ConfigOf(f), Magnitude(x)));
    ThresholdValue(f);
    res := EncodeMagnitude(ConfigOf(f), Magnitude(x));
  }

  /** Such a double exists for every code that is a number: the formats are exact subsets of the doubles. */
  lemma EveryNumberIsADouble(f: Format, code: nat) returns (x: Bits)
    requires code < 256 && Decode(f, code).Number?
    ensures SameNumber(f, code, x)
  {
    NumberCodes(f, code);
    hide CodeValue, Value, Decode;
    var c, sign := code % 128, code / 128;
    var mag := DoubleOfCode(f, c);
    x := WithSign(mag, sign);
  }

  lemma WithSign(mag: nat, sign: nat) returns (x: Bits)
    requires mag < 0x7FF0_0000_0000_0000 && sign < 2
    ensures Magnitude(x) == mag && SignBit(x) == sign
  {
    x := (mag + sign * 0x8000_0000_0000_0000) as Bits;
  }

  lemma DoubleOfCode(f: Format, c: nat) returns (mag: nat)
    requires c < 128
    ensures Value(mag) == CodeValue(f, c) && mag < 0x7FF0_0000_0000_0000
  {
    hide Value, CodeValue, Pow2;
    MantBitsValue(f);
    SmallPowers();
    if c >= Pow2(MantBits(f)) {
      ExactNormal(f, c);
      mag := NormalDouble(f, c);
    } else if c == 0 {
      assert Value(0) == 0 by { ZeroValue(); }
      SmallestStep(f);
      mag := 0;
    } else {
      // a subnormal c = 2^j + rest: one of the values 1 to 7
      var j := if c >= 4 then 2 else if c >= 2 then 1 else 0;
      mag := SubnormalDouble(f, c, j);
    }
  }

  lemma ZeroValue()
    ensures Value(0) == 0
  {
  }

  lemma NormalDouble(f: Format, c: nat) returns (mag: nat)
    requires c < 128
    ensures mag == BaseExponent(f) * P52 + c * Unit(f) && mag < 0x7FF0_0000_0000_0000
  {
    UnitValue(f);
    mag := BaseExponent(f) * P52 + c * Unit(f);
  }

  lemma SubnormalDouble(f: Format, c: nat, j: nat) returns (mag: nat)
    requires j <= 2 && Pow2(j) <= c < 2 * Pow2(j) && c < Pow2(MantBits(f))
    ensures Value(mag) == CodeValue(f, c) && mag < 0x7FF0_0000_0000_0000
  {
    hide Pow2, CodeValue, Value, Significand;
    var k := StepExponent(f);
    var e := k + j - 51;
    var p, w := Pow2(j), Pow2(52 - j);
    BigPowers();
    Pow2Add(52 - j, j);
    mag := e * P52 + (c - p) * w;
    SubnormalMagnitude(e, c, p, w);
    Pow2Add(52 - j, e - 1);
    assert 52 - j + (e - 1) == k;
    MulOf(c, Pow2(k), w, Pow2(e - 1));
    SmallCodeValue(f, c);
    ValueOf(mag, e, c * w);
  }

  lemma SubnormalMagnitude(e: nat, c: nat, p: nat, w: nat)
    requires e >= 1 && p <= c < 2 * p && w * p == P52
    ensures var mag := e * P52 + (c - p) * w; mag >= 0 && mag / P52 == e && Significand(mag) == c * w
  {
    RowBelow(w, c - p, 0, p);
    assert w * (c - p) == (c - p) * w && w * p == p * w;
    DivModUnique(e * P52 + (c - p) * w, P52, e, (c - p) * w);
    assert (c - p) * w + p * w == c * w;
  }

  lemma SmallCodeValue(f: Format, c: nat)
    requires c < Pow2(MantBits(f))
    ensures CodeValue(f, c) == c * Pow2(StepExponent(f))
  {
    DivModUnique(c, Pow2(MantBits(f)), 0, c);
  }

  lemma ValueOf(mag: nat, e: nat, s: nat)
    requires mag / P52 == e >= 1 && Significand(mag) == s
    ensures Value(mag) == s * Pow2(e - 1)
  {
  }

  function Signed(negative: bool, units: nat): int { if negative then 0 - units else units }

  /** The value of a finite double, signed. */
  function SignedValue(x: Bits): int { Signed(SignBit(x) == 1, Value(Magnitude(x))) }

  function SignedCode(f: Format, code: nat): int
    requires code < 256 && Decode(f, code).Number?
  {
    Signed(Decode(f, code).negative, Decode(f, code).units)
  }

  lemma MagnitudeMonotone(f: Format, v1: nat, r1: nat, v2: nat, r2: nat)
    requires v1 <= v2 && NearestEven(f, v1, r1) && NearestEven(f, v2, r2)
    ensures r1 <= r2
  {
    if r2 < r1 {
      assert Beats(f, v1, r1, r2) && Beats(f, v2, r2, r1);
      hide CodeValue;
      CodesIncrease(f, r2, r1);
      // v1 is above or at the midpoint and v2 below or at it, so both are the midpoint
      assert Distance(v1, CodeValue(f, r1)) == Distance(v1, CodeValue(f, r2)) && v1 == v2;
      NearestEvenUnique(f, v1, r1, r2);
    }
  }

  lemma CodeValueMonotone(f: Format, r1: nat, r2: nat)
    requires r1 <= r2
    ensures CodeValue(f, r1) <= CodeValue(f, r2)
  {
    if r1 < r2 {
      CodesIncrease(f, r1, r2);
    }
  }

  lemma SmallValueRoundsToZeroOrKeepsSign(f: Format, x: Bits)
    requires IsFinite(x)
    ensures 0 <= Encode(f, x) < 256 && Decode(f, Encode(f, x)).Number?
    ensures SignedCode(f, Encode(f, x)) == Signed(SignBit(x) == 1, CodeValue(f, Encode(f, x) % 128))
  {
    EncodeIsNearestCode(f, x);
    SmallestStep(f);
  }

  /** The encoder is monotone on finite doubles. */
  lemma EncodeMonotone(f: Format, x: Bits, y: Bits)
    requires IsFinite(x) && IsFinite(y) && SignedValue(x) <= SignedValue(y)
    ensures 0 <= Encode(f, x) < 256 && Decode(f, Encode(f, x)).Number?
    ensures 0 <= Encode(f, y) < 256 && Decode(f, Encode(f, y)).Number?
    ensures SignedCode(f, Encode(f, x)) <= SignedCode(f, Encode(f, y))
  {
    SmallValueRoundsToZeroOrKeepsSign(f, x);
    SmallValueRoundsToZeroOrKeepsSign(f, y);
    EncodeIsNearestCode(f, x);
    EncodeIsNearestCode(f, y);
    hide Encode, Decode, CodeValue, Value, SignedCode, NearestEven;
    var vx, vy := Value(Magnitude(x)), Value(Magnitude(y));
    var cx, cy := Encode(f, x) % 128, Encode(f, y) % 128;
    if SignBit(x) != 1 && SignBit(y) != 1 {
      MagnitudeMonotone(f, vx, cx, vy, cy);
      CodeValueMonotone(f, cx, cy);
    } else if SignBit(x) == 1 && SignBit(y) == 1 {
      MagnitudeMonotone(f, vy, cy, vx, cx);
      CodeValueMonotone(f, cy, cx);
    } else if SignBit(x) != 1 {
      // both are zero
      ZeroRoundsToZero(f, vx, cx);
      ZeroRoundsToZero(f, vy, cy);
    }
  }

  lemma ZeroRoundsToZero(f: Format, v: nat, r: nat)
    requires v == 0 && NearestEven(f, v, r)
    ensures CodeValue(f, r) == 0
  {
    SmallestStep(f);
    ExactIsNearest(f, 0, 0);
    NearestEvenUnique(f, 0, 0, r);
  }
}
