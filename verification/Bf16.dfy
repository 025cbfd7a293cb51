/**
  Rounding to bfloat16 (`float_to_bf16` in `tinygrad/dtype.py`): the number is packed in single precision, and of
  that the upper half of the bits is kept, to nearest, ties to even.

  `RoundIsNearestEven` compares values, as section 4.3.1 of IEEE 754-2019 does: with the code after the largest
  finite one standing for 2^128, so that overflow becomes infinity. Values are in units of 2^-149. `RoundDoubleIff`
  is about both steps together.
 */
module Bf16 {
  import opened IndexMath

  const HALF: nat := 0x1_0000
  const P23: nat := 0x80_0000
  const SIGN: nat := 0x8000_0000
  const INF: nat := 0x7F80_0000

  /** The bits of a single-precision number. */
  type Bits = u: nat | u < 0x1_0000_0000

  function Magnitude(u: Bits): nat { u % SIGN }

  function SignBit(u: Bits): nat { u / SIGN }

  predicate IsFinite(u: Bits) { Magnitude(u) < INF }

  /** (u + 0x7FFF + ((u >> 16) & 1)) & 0xFFFF0000, and non-finite numbers unchanged */
  function Round(u: Bits): nat {
    if !IsFinite(u) then u
    else
      var t := u + 0x7FFF + u / HALF % 2;
      (t - t % HALF) % 0x1_0000_0000
  }

  // ---------------------------------------------------------------- values

  function Slope(exp: nat): nat { Pow2(if exp == 0 then 0 else exp - 1) }

  function Value(mag: nat): nat {
    var exp := mag / P23;
    (mag % P23 + if exp == 0 then 0 else P23) * Slope(exp)
  }

  lemma ValueStep(mag: nat)
    ensures Value(mag + 1) == Value(mag) + Slope(mag / P23)
  {
    var exp, frac := mag / P23, mag % P23;
    DivModOf(mag, P23);
    var lead := frac + if exp == 0 then 0 else P23;
    if frac + 1 < P23 {
      DivModUnique(mag + 1, P23, exp, frac + 1);
      assert (lead + 1) * Slope(exp) == lead * Slope(exp) + Slope(exp);
    } else {
      DivModUnique(mag + 1, P23, exp + 1, 0);
      assert Slope(exp + 1) == if exp == 0 then 1 else 2 * Slope(exp);
      assert (lead + 1) * Slope(exp) == lead * Slope(exp) + Slope(exp);
    }
  }

  lemma {:induction false} ValueIncreases(a: nat, b: nat)
    requires a < b
    ensures Value(a) < Value(b)
    decreases b
  {
    ValueStep(b - 1);
    if a < b - 1 {
      ValueIncreases(a, b - 1);
    }
  }

  /** Between two neighbouring codes the value grows evenly. */
  lemma {:induction false} ValueEven(a: nat, d: nat)
    requires a % HALF == 0 && d <= HALF
    ensures Value(a + d) == Value(a) + d * Slope(a / P23)
    decreases d
  {
    if d > 0 {
      ValueEven(a, d - 1);
      ValueStep(a + d - 1);
      SameExponent(a, d - 1);
      assert (d - 1) * Slope(a / P23) + Slope(a / P23) == d * Slope(a / P23);
    }
  }

  lemma SameExponent(a: nat, d: nat)
    requires a % HALF == 0 && d < HALF
    ensures (a + d) / P23 == a / P23
  {
    DivModOf(a, HALF);
    DivModOf(a, P23);
    var k := a / HALF;
    assert a % P23 == HALF * (k % 128) by {
      DivModOf(k, 128);
      DivModUnique(a, P23, k / 128, HALF * (k % 128));
    }
    DivModUnique(a + d, P23, a / P23, a % P23 + d);
  }

  // ---------------------------------------------------------------- nearest, ties to even

  predicate IsCode(c: nat) { c % HALF == 0 }

  /** The lowest bit a bfloat16 number keeps. */
  predicate IsEven(c: nat) { c / HALF % 2 == 0 }

  /** Code r is nearer to the value of mag than code c, or as near and even. */
  predicate Beats(mag: nat, r: nat, c: nat) {
    || Distance(Value(mag), Value(r)) < Distance(Value(mag), Value(c))
    || (Distance(Value(mag), Value(r)) == Distance(Value(mag), Value(c)) && IsEven(r))
  }

  ghost predicate NearestEven(mag: nat, r: nat) {
    IsCode(r) && forall c: nat | IsCode(c) && c != r :: Beats(mag, r, c)
  }

  lemma RoundAt(s: nat, k: nat, rest: nat)
    requires s <= 1 && k < 0x7F80 && rest < HALF
    ensures
      var u := s * SIGN + HALF * k + rest;
      && u < 0x1_0000_0000 && Magnitude(u) == HALF * k + rest && SignBit(u) == s
      && Round(u) == s * SIGN + HALF * (k + if rest > HALF / 2 || (rest == HALF / 2 && k % 2 == 1) then 1 else 0)
  {
    var u, q := s * SIGN + HALF * k + rest, s * 0x8000 + k;
    DivModUnique(u, SIGN, s, HALF * k + rest);
    DivModUnique(u, HALF, q, rest);
    assert q % 2 == k % 2;
    var moved := rest + 0x7FFF + k % 2;
    if moved >= HALF {
      DivModUnique(u + 0x7FFF + k % 2, HALF, q + 1, moved - HALF);
    } else {
      DivModUnique(u + 0x7FFF + k % 2, HALF, q, moved);
    }
  }

  /** What rounding does to a magnitude: down or up to the next code. */
  lemma RoundParts(u: Bits)
    requires IsFinite(u)
    ensures
      var mag := Magnitude(u);
      var low, rest := mag - mag % HALF, mag % HALF;
      var up := rest > HALF / 2 || (rest == HALF / 2 && !IsEven(low));
      Round(u) == SignBit(u) * SIGN + low + if up then HALF else 0
  {
    var mag := Magnitude(u);
    DivModOf(mag, HALF);
    DivModOf(u, SIGN);
    var k, rest := mag / HALF, mag % HALF;
    DivModUnique(mag - rest, HALF, k, 0);
    RoundAt(SignBit(u), k, rest);
    hide Round;
  }

  lemma NextCode(low: nat)
    requires IsCode(low)
    ensures IsCode(low + HALF) && (IsEven(low + HALF) <==> !IsEven(low))
  {
    DivModOf(low, HALF);
    DivModUnique(low + HALF, HALF, low / HALF + 1, 0);
  }

  lemma NearestOfTwo(mag: nat, up: bool)
    requires up == (mag % HALF > HALF / 2 || (mag % HALF == HALF / 2 && !IsEven(mag - mag % HALF)))
    ensures NearestEven(mag, mag - mag % HALF + if up then HALF else 0)
  {
    hide Beats, IsCode, IsEven;
    var rest := mag % HALF;
    var low := mag - rest;
    LowIsCode(mag);
    NextCode(low);
    var r := low + if up then HALF else 0;
    forall c: nat | IsCode(c) && c != r
      ensures Beats(mag, r, c)
    {
      BeatsCode(mag, low, rest, up, c);
    }
  }

  lemma BeatsCode(mag: nat, low: nat, rest: nat, up: bool, c: nat)
    requires mag == low + rest && rest < HALF && IsCode(low) && IsCode(low + HALF) && IsCode(c)
    requires IsEven(low + HALF) == !IsEven(low)
    requires up == (rest > HALF / 2 || (rest == HALF / 2 && !IsEven(low)))
    requires c != low + if up then HALF else 0
    ensures Beats(mag, low + if up then HALF else 0, c)
  {
    var slope := Slope(low / P23);
    var x, y := rest * slope, (HALF - rest) * slope;
    ValueEven(low, rest);
    ValueEven(low, HALF);
    CompareParts(slope, rest);
    Positions(low, c);
    if c < low {
      ValueIncreases(c, low);
    } else if c > low + HALF {
      ValueIncreases(low + HALF, c);
    }
    hide Value, Slope, IsEven, IsCode;
    assert Value(mag) == Value(low) + x && Value(low + HALF) == Value(low) + x + y;
  }

  lemma CompareParts(slope: nat, rest: nat)
    requires slope > 0 && rest <= HALF
    ensures
      var x, y := rest * slope, (HALF - rest) * slope;
      && x >= 0 && y >= 0 && x + y == HALF * slope
      && (rest < HALF / 2 ==> x < y) && (rest == HALF / 2 ==> x == y) && (rest > HALF / 2 ==> x > y)
  {
    var gap := HALF - 2 * rest;
    assert (HALF - rest) * slope == rest * slope + gap * slope;
    MulMono(slope, 1, gap);
    MulMono(slope, gap, -1);
  }

  /** Another code is one of the two neighbours or lies beyond them. */
  lemma Positions(low: nat, c: nat)
    requires IsCode(low) && IsCode(c)
    ensures c <= low || c >= low + HALF
  {
    DivModOf(low, HALF);
    DivModOf(c, HALF);
    var j, k := c / HALF, low / HALF;
    MulMono(HALF, k + 1, j);
    MulMono(HALF, j, k);
  }

  // ---------------------------------------------------------------- the main results

  /** A finite number keeps its sign, and its magnitude becomes the nearest code, ties to even, or infinity. */
  lemma RoundIsNearestEven(u: Bits)
    requires IsFinite(u)
    ensures Round(u) < 0x1_0000_0000 && SignBit(Round(u)) == SignBit(u) && Magnitude(Round(u)) <= INF
    ensures NearestEven(Magnitude(u), Magnitude(Round(u)))
  {
    hide NearestEven, Round, IsEven, IsCode;
    RoundParts(u);
    var mag := Magnitude(u);
    var rest := mag % HALF;
    var low := mag - rest;
    var up := rest > HALF / 2 || (rest == HALF / 2 && !IsEven(low));
    NearestOfTwo(mag, up);
    CodesBelowInfinity(mag);
    DivModOf(u, SIGN);
    DivModUnique(Round(u), SIGN, SignBit(u), low + if up then HALF else 0);
  }

  lemma CodesBelowInfinity(mag: nat)
    requires mag < INF
    ensures mag - mag % HALF + HALF <= INF
  {
    LowIsCode(mag);
    assert INF == 0x7F80 * HALF + 0;
    DivModUnique(INF, HALF, 0x7F80, 0);
    Positions(mag - mag % HALF, INF);
  }

  /** bfloat16 numbers stay what they are. */
  lemma CodesAreKept(u: Bits)
    requires IsFinite(u) && IsCode(u)
    ensures Round(u) == u
  {
    RoundParts(u);
    DivModOf(u, HALF);
    DivModUnique(Magnitude(u), HALF, u / HALF - SignBit(u) * 0x8000, 0);
  }

  /** Rounding twice is rounding once. */
  lemma RoundTwice(u: Bits)
    ensures Round(u) < 0x1_0000_0000 && Round(Round(u)) == Round(u)
  {
    if IsFinite(u) {
      RoundIsNearestEven(u);
      if IsFinite(Round(u)) {
        RoundParts(u);
        DivModOf(Magnitude(u), HALF);
        RoundIsCode(u);
        CodesAreKept(Round(u));
      }
    }
  }

  lemma RoundIsCode(u: Bits)
    requires IsFinite(u)
    ensures IsCode(Round(u))
  {
    RoundIsNearestEven(u);
    DivModOf(Magnitude(Round(u)), HALF);
    DivModUnique(Round(u), HALF, SignBit(u) * 0x8000 + Magnitude(Round(u)) / HALF, 0);
  }

  /** Of two magnitudes the smaller never becomes the larger. */
  lemma RoundMonotone(a: Bits, b: Bits)
    requires IsFinite(a) && IsFinite(b) && Magnitude(a) <= Magnitude(b)
    ensures Round(a) < 0x1_0000_0000 && Round(b) < 0x1_0000_0000 && Magnitude(Round(a)) <= Magnitude(Round(b))
  {
    hide NearestEven, Round, Magnitude, IsCode, IsEven, Step;
    RoundedMagnitude(a);
    RoundedMagnitude(b);
    var ra, rb := Magnitude(a) % HALF, Magnitude(b) % HALF;
    DivModOf(Magnitude(a), HALF);
    DivModOf(Magnitude(b), HALF);
    LowIsCode(Magnitude(a));
    LowIsCode(Magnitude(b));
    StepsMonotone(Magnitude(a) - ra, ra, Magnitude(b) - rb, rb);
  }

  function Step(low: nat, rest: nat): nat {
    if rest > HALF / 2 || (rest == HALF / 2 && !IsEven(low)) then HALF else 0
  }

  lemma StepsMonotone(la: nat, ra: nat, lb: nat, rb: nat)
    requires IsCode(la) && IsCode(lb) && ra < HALF && rb < HALF && la + ra <= lb + rb
    ensures la + Step(la, ra) <= lb + Step(lb, rb)
  {
    Positions(la, lb);
    hide IsCode, IsEven;
  }

  lemma LowIsCode(mag: nat)
    ensures IsCode(mag - mag % HALF)
  {
    DivModOf(mag, HALF);
    DivModUnique(mag - mag % HALF, HALF, mag / HALF, 0);
  }

  lemma RoundedMagnitude(u: Bits)
    requires IsFinite(u)
    ensures
      var mag := Magnitude(u);
      var low, rest := mag - mag % HALF, mag % HALF;
      Round(u) < 0x1_0000_0000 && Magnitude(Round(u)) == low + Step(low, rest)
  {
    RoundIsNearestEven(u);
    RoundParts(u);
    DivModOf(Round(u), SIGN);
    hide NearestEven, Round;
  }

  // ---------------------------------------------------------------- from double precision

  /** How far the number x, in units of 2^-149, is from the number with the magnitude bits c. */
  function Apart(x: real, c: nat): real {
    if x < Value(c) as real then Value(c) as real - x else x - Value(c) as real
  }

  /** The single-precision number nearest to x, ties to even: what packing x as one gives. */
  ghost predicate NearestSingle(x: real, m: nat) {
    forall c: nat | c != m :: Apart(x, m) < Apart(x, c) || (Apart(x, m) == Apart(x, c) && m % 2 == 0)
  }

  /** The bfloat16 number nearest to x, ties to even. */
  ghost predicate NearestCode(x: real, r: nat) {
    IsCode(r) && forall c: nat | IsCode(c) && c != r ::
      Apart(x, r) < Apart(x, c) || (Apart(x, r) == Apart(x, c) && IsEven(r))
  }

  lemma {:induction false} ValueAtLeast(n: nat)
    ensures Value(n) >= n
  {
    if n > 0 {
      ValueAtLeast(n - 1);
      ValueIncreases(n - 1, n);
    }
  }

  lemma {:induction false} SingleBelow(x: real, n: nat) returns (m: nat)
    requires 0.0 <= x < Value(n) as real
    ensures Value(m) as real <= x < Value(m + 1) as real
  {
    if n > 0 && x < Value(n - 1) as real {
      m := SingleBelow(x, n - 1);
    } else {
      m := n - 1;
    }
  }

  /** There is one for every x; at or beyond 2^128 packing raises an error. */
  lemma SingleExists(x: real) returns (m: nat)
    requires x >= 0.0
    ensures NearestSingle(x, m)
  {
    hide Value, Apart;
    ValueAtLeast(x.Floor + 1);
    var low := SingleBelow(x, x.Floor + 1);
    m := if Apart(x, low) < Apart(x, low + 1) || (Apart(x, low) == Apart(x, low + 1) && low % 2 == 0)
         then low else low + 1;
    forall c: nat | c != low && c != low + 1
      ensures Apart(x, low) < Apart(x, c) || Apart(x, low + 1) < Apart(x, c)
    {
      OtherSingles(x, low, c);
    }
  }

  lemma OtherSingles(x: real, low: nat, c: nat)
    requires Value(low) as real <= x < Value(low + 1) as real && c != low && c != low + 1
    ensures Apart(x, low) < Apart(x, c) || Apart(x, low + 1) < Apart(x, c)
  {
    hide Value;
    if c < low { ValueIncreases(c, low); } else { ValueIncreases(low + 1, c); }
  }

  /** Other single-precision numbers lie on the other side of the nearest one. */
  lemma BeyondNearest(x: real, m: nat, c: nat)
    requires NearestSingle(x, m)
    ensures c < m ==> Value(c) as real < x
    ensures c > m ==> x < Value(c) as real
  {
    hide Value;
    if c < m { ValueIncreases(c, m); }
    if c > m { ValueIncreases(m, c); }
    assert c != m ==> Apart(x, m) <= Apart(x, c);
  }

  lemma MiddleOf(low: nat)
    requires IsCode(low)
    ensures IsCode(low + HALF) && (IsEven(low + HALF) <==> !IsEven(low)) && Value(low) < Value(low + HALF)
    ensures 2 * Value(low + HALF / 2) == Value(low) + Value(low + HALF)
  {
    NextCode(low);
    ValueEven(low, HALF / 2);
    ValueEven(low, HALF);
    ValueIncreases(low, low + HALF);
  }

  lemma OtherCodes(x: real, low: nat, c: nat)
    requires IsCode(low) && Value(low) as real <= x <= Value(low + HALF) as real
    requires IsCode(c) && c != low && c != low + HALF
    ensures Apart(x, low) < Apart(x, c) || Apart(x, low + HALF) < Apart(x, c)
  {
    hide Value, IsCode;
    Positions(low, c);
    if c < low { ValueIncreases(c, low); } else { ValueIncreases(low + HALF, c); }
  }

  /** The nearer of two codes, if all others are farther from x than one of the two. */
  lemma NearerOf(x: real, a: nat, b: nat)
    requires IsCode(a) && IsCode(b) && a != b && (IsEven(a) <==> !IsEven(b))
    requires forall c: nat | IsCode(c) && c != a && c != b :: Apart(x, a) < Apart(x, c) || Apart(x, b) < Apart(x, c)
    ensures NearestCode(x, a) <==> Apart(x, a) < Apart(x, b) || (Apart(x, a) == Apart(x, b) && IsEven(a))
  {
    hide Apart, IsCode, IsEven;
  }

  /** Between two neighbouring codes the number in the middle decides. */
  lemma MiddleDecides(x: real, low: nat)
    requires IsCode(low) && Value(low) as real <= x <= Value(low + HALF) as real
    ensures
      var middle := Value(low + HALF / 2) as real;
      && (NearestCode(x, low) <==> x < middle || (x == middle && IsEven(low)))
      && (NearestCode(x, low + HALF) <==> x > middle || (x == middle && !IsEven(low)))
  {
    hide Value, IsCode, IsEven, NearestCode;
    var high := low + HALF;
    MiddleOf(low);
    forall c: nat | IsCode(c) && c != low && c != high
      ensures Apart(x, low) < Apart(x, c) || Apart(x, high) < Apart(x, c)
    {
      OtherCodes(x, low, c);
    }
    NearerOf(x, low, high);
    NearerOf(x, high, low);
  }

  /**
    Of a finite double the code first makes a single-precision number and then a bfloat16 number. That is the
    nearest one to the double exactly unless the first step lands in the middle between two of them and comes from
    the side that the second step does not go to.
   */
  lemma RoundDoubleIff(x: real, u: Bits)
    requires x >= 0.0 && IsFinite(u) && NearestSingle(x, Magnitude(u))
    ensures
      var m := Magnitude(u);
      var low := m - m % HALF;
      Round(u) < 0x1_0000_0000 &&
      (NearestCode(x, Magnitude(Round(u))) <==>
        || m % HALF != HALF / 2 || x == Value(m) as real
        || (if IsEven(low) then x < Value(m) as real else x > Value(m) as real))
  {
    hide NearestSingle, NearestCode, NearestEven, Round, Value, IsEven, IsCode;
    RoundedMagnitude(u);
    var m := Magnitude(u);
    var rest := m % HALF;
    var low := m - rest;
    DivModOf(m, HALF);
    LowIsCode(m);
    BeyondNearest(x, m, low);
    BeyondNearest(x, m, low + HALF);
    BeyondNearest(x, m, low + HALF / 2);
    if Value(low) as real <= x {
      MiddleDecides(x, low);
    } else {
      BelowCode(x, low);
    }
  }

  lemma BelowCode(x: real, low: nat)
    requires 0.0 <= x < Value(low) as real && IsCode(low) && NearestSingle(x, low)
    ensures NearestCode(x, low)
  {
    hide NearestSingle, NearestCode, IsEven;
    assert Value(0) == 0;
    DivModOf(low, HALF);
    DivModUnique(low - HALF, HALF, low / HALF - 1, 0);
    BeyondNearest(x, low, low - HALF);
    BeyondNearest(x, low, low - HALF / 2);
    MiddleDecides(x, low - HALF);
  }

  lemma NearestFromAbove(x: real, m: nat)
    requires
      var above := x - Value(m) as real;
      0.0 <= above && above + above < Value(m + 1) as real - Value(m) as real
    ensures NearestSingle(x, m)
  {
    hide Value;
    forall c: nat | c != m ensures Apart(x, m) < Apart(x, c) {
      if c < m { ValueIncreases(c, m); } else if c > m + 1 { ValueIncreases(m + 1, c); }
    }
  }

  lemma TieRoundsDown(low: Bits)
    requires IsFinite(low) && SignBit(low) == 0 && IsCode(low) && IsEven(low)
    ensures
      var m := low + HALF / 2;
      && m < 0x1_0000_0000 && IsFinite(m) && Magnitude(m) == m && Magnitude(Round(m)) == low
      && m / P23 == low / P23
  {
    var m := low + HALF / 2;
    DivModOf(low, SIGN);
    DivModOf(low, HALF);
    DivModUnique(m, SIGN, 0, m);
    DivModUnique(m, HALF, low / HALF, HALF / 2);
    SameExponent(low, HALF / 2);
    hide Round, IsEven;
    RoundedMagnitude(m);
  }

  /**
    So every even code is returned for numbers that are nearer to the next one: those a little above the middle, by
    less than half of the step in single precision. For example 1 + 2^-8 + 2^-30 becomes 1, not 1 + 2^-7.
   */
  lemma RoundedTwiceIsOff(low: Bits, x: real)
    requires IsFinite(low) && SignBit(low) == 0 && IsCode(low) && IsEven(low)
    requires
      var above := x - Value(low + HALF / 2) as real;
      0.0 < above && above + above < Slope(low / P23) as real
    ensures
      var u := low + HALF / 2;
      && u < 0x1_0000_0000 && NearestSingle(x, u) && Magnitude(Round(u)) == low
      && NearestCode(x, low + HALF) && !NearestCode(x, low)
  {
    var m := low + HALF / 2;
    hide Value, Slope, NearestSingle, NearestCode, Round, Magnitude, IsCode, IsEven;
    TieRoundsDown(low);
    ValueStep(m);
    NearestFromAbove(x, m);
    ValueIncreases(low, m);
    ValueIncreases(m + 1, low + HALF);
    MiddleDecides(x, low);
  }
}
