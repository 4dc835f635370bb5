/**
 * float_i2f (data-lab/datalab-handout/bits.c): the conversion of a 32-bit
 * integer to the bits of a binary32 number, proved to round to nearest with
 * ties to even (sections 3.4, 4.3.1 and 5.4.1 of IEEE 754-2008).
 *
 * The magnitude of an encoding (its bits without the sign) counts upwards
 * through the representable values, so that adding one to it moves to the next
 * value even when the fraction carries into the exponent. Values are measured
 * in units of the smallest one.
 */
module FloatConversion {
  import opened Common

  lemma {:induction false} Pow2Sum(a: nat, b: nat)
    ensures Pow2(a + b) == Pow2(a) * Pow2(b)
  {
    if a > 0 {
      Pow2Sum(a - 1, b);
      assert Pow2(a + b) == 2 * Pow2(a - 1 + b);
      Double(Pow2(a - 1), Pow2(b));
    }
  }

  lemma Double(a: int, b: int)
    ensures (2 * a) * b == 2 * (a * b) == a * (2 * b)
  {
  }

  // ----- the values a binary format can represent -----

  /** What magnitude `m` stands for when the fraction takes `unit` values: exponent 0 is subnormal. */
  function Value(unit: nat, m: nat): nat
    requires unit > 0
  {
    var exponent, fraction := m / unit, m % unit;
    if exponent == 0 then fraction else (unit + fraction) * Pow2(exponent - 1)
  }

  /** A fraction that has just overflowed is the next exponent with fraction zero. */
  lemma ValueAt(unit: nat, e: nat, f: nat)
    requires e > 0 && f <= unit && unit > 0
    ensures Value(unit, e * unit + f) == (unit + f) * Pow2(e - 1)
  {
    if f < unit {
      DivMod(unit, e, f);
    } else {
      assert e * unit + f == (e + 1) * unit + 0;
      DivMod(unit, e + 1, 0);
      assert Pow2(e) == 2 * Pow2(e - 1);
      Double(unit, Pow2(e - 1));
      assert unit + f == 2 * unit;
    }
  }

  lemma ValueStep(unit: nat, m: nat)
    requires unit > 0
    ensures Value(unit, m) < Value(unit, m + 1)
  {
    var e, f := m / unit, m % unit;
    assert m == e * unit + f;
    if e > 0 {
      ValueAt(unit, e, f);
      ValueAt(unit, e, f + 1);
      Distribute(unit + f, 1, Pow2(e - 1));
    } else if f + 1 < unit {
      DivMod(unit, 0, f + 1);
    } else {
      DivMod(unit, 1, 0);
      assert Pow2(0) == 1;
    }
  }

  /** Larger magnitudes stand for larger values. */
  lemma {:induction false} ValueOrder(unit: nat, m: nat, n: nat)
    requires unit > 0 && m < n
    ensures Value(unit, m) < Value(unit, n)
    decreases n
  {
    ValueStep(unit, n - 1);
    if m < n - 1 {
      ValueOrder(unit, m, n - 1);
    }
  }

  // ----- rounding to nearest, ties to even -----

  function Distance(a: int, b: int): nat {
    if a < b then b - a else a - b
  }

  /** Is `c` no closer to `t` than `m`, and as close only if `m` is even or they are the same? */
  ghost predicate Beats(unit: nat, t: int, m: nat, c: nat)
    requires unit > 0
  {
    && Distance(Value(unit, m), t) <= Distance(Value(unit, c), t)
    && (c != m && Distance(Value(unit, m), t) == Distance(Value(unit, c), t) ==> m % 2 == 0)
  }

  ghost predicate Rounds(unit: nat, t: int, m: nat)
    requires unit > 0
  {
    forall c: nat {:trigger Beats(unit, t, m, c)} :: Beats(unit, t, m, c)
  }

  /** Between two neighbouring values the closer one wins, and the even one if neither is closer. */
  lemma RoundsBetween(unit: nat, t: int, low: nat, m: nat)
    requires unit > 0 && (m == low || m == low + 1)
    requires Value(unit, low) <= t <= Value(unit, low + 1)
    requires m == low ==> t - Value(unit, low) <= Value(unit, low + 1) - t
    requires m != low ==> t - Value(unit, low) >= Value(unit, low + 1) - t
    requires t - Value(unit, low) == Value(unit, low + 1) - t ==> m % 2 == 0
    ensures Rounds(unit, t, m)
  {
    forall c: nat ensures Beats(unit, t, m, c) {
      if c < low {
        ValueOrder(unit, c, low);
      } else if c > low + 1 {
        ValueOrder(unit, low + 1, c);
      }
    }
  }

  /** There is only one correctly rounded magnitude. */
  lemma RoundsUnique(unit: nat, t: int, m: nat, n: nat)
    requires unit > 0 && Rounds(unit, t, m) && Rounds(unit, t, n)
    ensures m == n
  {
    var a, b := if m <= n then m else n, if m <= n then n else m;
    assert Beats(unit, t, a, b) && Beats(unit, t, b, a);
    if a < b {
      assert Beats(unit, t, a, a + 1);
      assert a + 1 < b;
      ValueOrder(unit, a, a + 1);
      ValueOrder(unit, a + 1, b);
      assert false;
    }
  }

  // ----- normalising and rounding, for any width and precision -----

  /** `n` shifted left until its top bit is set, and how far it was shifted. */
  function Normalised(n: nat, top: nat): (r: (nat, nat))
    requires 0 < n < 2 * top
    ensures top <= r.0 < 2 * top
    decreases top - n
  {
    if n >= top then (n, 0) else
      var rest := Normalised(2 * n, top);
      (rest.0, rest.1 + 1)
  }

  lemma {:induction false} NormalisedShift(n: nat, top: nat)
    requires 0 < n < 2 * top
    ensures n * Pow2(Normalised(n, top).1) == Normalised(n, top).0
    decreases top - n
  {
    if n < top {
      NormalisedShift(2 * n, top);
      Double(n, Pow2(Normalised(2 * n, top).1));
    } else {
      assert Pow2(0) == 1;
    }
  }

  lemma ShiftBound(n: nat, s: nat, w: nat)
    requires n > 0 && w > 0 && n * Pow2(s) < Pow2(w)
    ensures s < w
  {
  }

  /** Whether `u`, cut to a multiple of `cut`, is rounded upwards. */
  predicate RoundUp(u: nat, cut: nat)
    requires cut > 0
  {
    2 * (u % cut) > cut || (2 * (u % cut) == cut && (u / cut) % 2 == 1)
  }

  lemma Cut(u: nat, cut: nat, unit: nat)
    requires cut > 0 && unit * cut <= u < 2 * (unit * cut)
    ensures unit <= u / cut < 2 * unit
  {
    var q := u / cut;
    Division(u, cut);
    ProductOrder(q + 1, unit, cut);
    Distribute(q, 1, cut);
    ProductOrder(2 * unit, q, cut);
    Double(unit, cut);
  }

  lemma LowParity(e: nat, unit: nat, q: nat)
    requires unit % 2 == 0 && unit <= q
    ensures (e * unit + (q - unit)) % 2 == q % 2
  {
    var half := unit / 2;
    Double(half, e);
    assert e * unit + (q - unit) == 2 * (half * e - half) + q;
  }

  lemma Weigh(r: nat, cut: nat, g: nat) returns (below: nat, above: nat)
    requires g > 0 && r <= cut
    ensures below == r * g && above == (cut - r) * g
    ensures 2 * r <= cut <==> below <= above
    ensures 2 * r == cut <==> below == above
  {
    ProductOrder(r, cut - r, g);
    ProductOrder(0, r, g);
    ProductOrder(0, cut - r, g);
    below, above := r * g, (cut - r) * g;
  }

  /** The two neighbours of the number `u * g`, and how far it is from each. */
  lemma Neighbours(u: nat, cut: nat, unit: nat, e: nat, g: nat)
    requires cut > 0 && unit > 0 && e > 0 && unit * cut <= u < 2 * (unit * cut)
    requires Pow2(e - 1) == cut * g
    ensures unit <= u / cut < 2 * unit
    ensures u * g - Value(unit, e * unit + (u / cut - unit)) == (u % cut) * g
    ensures Value(unit, e * unit + (u / cut - unit) + 1) - u * g == (cut - u % cut) * g
  {
    Cut(u, cut, unit);
    var q := u / cut;
    ValueAt(unit, e, q - unit);
    ValueAt(unit, e, q - unit + 1);
    Division(u, cut);
    Parts(q, u % cut, cut, g);
    assert unit + (q - unit) == q && unit + (q - unit + 1) == q + 1;
    assert e * unit + (q - unit + 1) == e * unit + (q - unit) + 1;
  }

  lemma Parts(q: nat, r: nat, cut: nat, g: nat)
    ensures (q * cut + r) * g - q * (cut * g) == r * g
    ensures (q + 1) * (cut * g) - (q * cut + r) * g == (cut - r) * g
  {
  }

  lemma Regroup(a: int, b: int, c: int)
    ensures (a * b) * c == a * (b * c)
  {
  }

  /** How far `u * g` is from its neighbours is decided by the bits that are cut off. */
  lemma Distances(u: nat, cut: nat, unit: nat, e: nat, g: nat)
    returns (low: nat, below: nat, above: nat)
    requires cut > 0 && unit > 0 && unit % 2 == 0 && e > 0 && g > 0
    requires unit * cut <= u < 2 * (unit * cut)
    requires Pow2(e - 1) == cut * g
    ensures u / cut >= unit && low == e * unit + (u / cut - unit) && low % 2 == (u / cut) % 2
    ensures u * g - Value(unit, low) == below && Value(unit, low + 1) - u * g == above
    ensures 2 * (u % cut) <= cut <==> below <= above
    ensures 2 * (u % cut) == cut <==> below == above
  {
    Neighbours(u, cut, unit, e, g);
    below, above := Weigh(u % cut, cut, g);
    low := e * unit + (u / cut - unit);
    LowParity(e, unit, u / cut);
  }

  /** Cutting a normalised number and adding one when needed rounds it correctly. */
  lemma CutRounds(u: nat, cut: nat, unit: nat, e: nat, g: nat)
    requires cut > 0 && unit > 0 && unit % 2 == 0 && e > 0 && g > 0
    requires unit * cut <= u < 2 * (unit * cut)
    requires Pow2(e - 1) == cut * g
    ensures u / cut >= unit
    ensures Rounds(unit, u * g, e * unit + (u / cut - unit) + if RoundUp(u, cut) then 1 else 0)
  {
    var low, below, above := Distances(u, cut, unit, e, g);
    RoundsNeighbour(unit, u * g, low, u / cut % 2 == 1, u % cut, cut, below, above);
  }

  /** `below` and `above` are the distances of `t` to its neighbours, split like the cut bits `r`. */
  lemma RoundsNeighbour(unit: nat, t: int, low: nat, odd: bool, r: nat, cut: nat, below: nat,
                                           above: nat)
    requires unit > 0 && (odd <==> low % 2 == 1)
    requires t - Value(unit, low) == below && Value(unit, low + 1) - t == above
    requires 2 * r <= cut <==> below <= above
    requires 2 * r == cut <==> below == above
    ensures Rounds(unit, t, low + if 2 * r > cut || (2 * r == cut && odd) then 1 else 0)
  {
    RoundsBetween(unit, t, low, low + if 2 * r > cut || (2 * r == cut && odd) then 1 else 0);
  }

  /**
   * The magnitude obtained from the integer `n` of `width` bits for a format with
   * `precision` significant bits whose smallest value is 2 to the minus `scale`.
   */
  function Converted(n: nat, width: nat, precision: nat, scale: nat): int
    requires 2 <= precision < width && 0 < n < 2 * Pow2(width - 1)
  {
    var (u, shift) := Normalised(n, Pow2(width - 1));
    var unit, cut := Pow2(precision - 1), Pow2(width - precision);
    (scale + 1 + width - precision - shift) * unit + (u / cut - unit) + if RoundUp(u, cut) then 1 else 0
  }

  lemma Scales(n: nat, u: nat, shift: nat, width: nat, precision: nat, scale: nat)
    requires 2 <= precision < width <= scale && shift < width && n * Pow2(shift) == u
    ensures Pow2(precision - 1) * Pow2(width - precision) == Pow2(width - 1)
    ensures Pow2(precision - 1) % 2 == 0
    ensures Pow2(scale + width - precision - shift) == Pow2(width - precision) * Pow2(scale - shift)
    ensures n * Pow2(scale) == u * Pow2(scale - shift)
  {
    Pow2Sum(precision - 1, width - precision);
    assert Pow2(precision - 1) == 2 * Pow2(precision - 2);
    Pow2Sum(width - precision, scale - shift);
    Pow2Sum(shift, scale - shift);
    Regroup(n, Pow2(shift), Pow2(scale - shift));
  }

  /** Normalising and rounding is correct for every width and precision. */
  lemma ConvertedRounds(n: nat, width: nat, precision: nat, scale: nat)
    requires 2 <= precision < width <= scale && 0 < n < 2 * Pow2(width - 1)
    ensures Converted(n, width, precision, scale) >= 0
    ensures Rounds(Pow2(precision - 1), n * Pow2(scale), Converted(n, width, precision, scale))
  {
    var (u, shift) := Normalised(n, Pow2(width - 1));
    NormalisedShift(n, Pow2(width - 1));
    ShiftBound(n, shift, width);
    Scales(n, u, shift, width, precision, scale);
    CutRounds(u, Pow2(width - precision), Pow2(precision - 1),
              scale + 1 + width - precision - shift, Pow2(scale - shift));
  }

  // ----- binary32 -----

  const MASK := 0x8000_0000
  const UNIT := 0x80_0000
  const SCALE: nat := 149

  type Int32 = x: int | -0x8000_0000 <= x < 0x8000_0000
  type Bits = b: nat | b < 0x1_0000_0000

  function Magnitude(b: Bits): nat {
    b % MASK
  }

  predicate IsNegative(b: Bits) {
    b >= MASK
  }

  predicate IsFinite(b: Bits) {
    Magnitude(b) / UNIT < 255
  }

  /** The number `b` encodes, in units of 2 to the minus 149. */
  function Scaled(b: Bits): int {
    var value: int := Value(UNIT, Magnitude(b));
    if IsNegative(b) then -value else value
  }

  /** Section 4.3.1: no finite encoding is closer to `x`, and one as close means an even `b`. */
  ghost predicate IsRounded(x: Int32, b: Bits) {
    && IsFinite(b)
    && forall c: Bits {:trigger Scaled(c)} :: IsFinite(c) ==>
         && Distance(Scaled(b), x * Pow2(SCALE)) <= Distance(Scaled(c), x * Pow2(SCALE))
         && (Scaled(c) != Scaled(b) && Distance(Scaled(b), x * Pow2(SCALE)) == Distance(Scaled(c), x * Pow2(SCALE))
             ==> b % 2 == 0)
  }

  function Abs(x: int): nat {
    if x < 0 then -x else x
  }

  lemma Constants()
    ensures Pow2(31) == MASK && Pow2(23) == UNIT && Pow2(8) == 256
  {
    assert Pow2(4) == 16;
    assert Pow2(7) == 8 * Pow2(4);
    assert Pow2(8) == 2 * Pow2(7);
    Pow2Sum(8, 7);
    Pow2Sum(15, 8);
    Pow2Sum(23, 8);
  }

  /** The three fields of an encoding, and what they stand for. */
  lemma Decoding(b: Bits)
    ensures var negative, exponent, fraction := b >= 0x8000_0000, b / 0x80_0000 % 256, b % 0x80_0000;
            var value := if exponent == 0 then fraction else (0x80_0000 + fraction) * Pow2(exponent - 1);
            && (IsFinite(b) <==> exponent < 255) && (IsNegative(b) <==> negative)
            && Scaled(b) == if negative then 0 - value else value
  {
    var m := b % 0x8000_0000;
    assert m / 0x80_0000 == b / 0x80_0000 % 256 && m % 0x80_0000 == b % 0x80_0000;
  }

  /** The sign can be put back after rounding the magnitude. */
  lemma SignedRounds(x: Int32, b: Bits)
    requires IsFinite(b) && (IsNegative(b) <==> x < 0)
    requires Rounds(UNIT, Abs(x) * Pow2(SCALE), Magnitude(b))
    ensures IsRounded(x, b)
  {
    var t := Abs(x) * Pow2(SCALE);
    Negate(x, Pow2(SCALE));
    assert x * Pow2(SCALE) == if x < 0 then -t else t;
    assert t >= 0;
    forall c: Bits {:trigger Scaled(c)} | IsFinite(c)
      ensures Distance(Scaled(b), x * Pow2(SCALE)) <= Distance(Scaled(c), x * Pow2(SCALE))
      ensures (Scaled(c) != Scaled(b)
               && Distance(Scaled(b), x * Pow2(SCALE)) == Distance(Scaled(c), x * Pow2(SCALE))) ==> b % 2 == 0
    {
      assert Beats(UNIT, t, Magnitude(b), Magnitude(c));
      assert Beats(UNIT, t, Magnitude(b), 0);
      assert Value(UNIT, 0) == 0;
      EvenBits(b);
      SignsApart(Value(UNIT, Magnitude(b)), Value(UNIT, Magnitude(c)), t, IsNegative(b) == IsNegative(c), b % 2 == 0);
      Mirrored(b, c, t);
    }
  }

  lemma Negate(x: int, p: nat)
    ensures x * p == if x < 0 then -(Abs(x) * p) else Abs(x) * p
    ensures Abs(x) * p >= 0
  {
  }

  /** An encoding on the other side of zero is no closer than zero itself. */
  lemma SignsApart(b: nat, c: nat, t: nat, sameSign: bool, even: bool)
    requires Distance(b, t) <= Distance(c, t) && (b != c && Distance(b, t) == Distance(c, t) ==> even)
    requires Distance(b, t) <= t && (b != 0 && Distance(b, t) == t ==> even)
    ensures var signed: int := if sameSign then c else 0 - c;
            Distance(b, t) <= Distance(signed, t) && (b != signed && Distance(b, t) == Distance(signed, t) ==> even)
  {
  }

  /** Comparing two encodings, seen from the sign of the first. */
  lemma Mirrored(b: Bits, c: Bits, t: int)
    ensures var vb, vc := Value(UNIT, Magnitude(b)), Value(UNIT, Magnitude(c));
            var target := if IsNegative(b) then -t else t;
            var signed: int := if IsNegative(b) == IsNegative(c) then vc else 0 - vc;
            && Distance(Scaled(b), target) == Distance(vb, t) && Distance(Scaled(c), target) == Distance(signed, t)
            && (Scaled(b) == Scaled(c) <==> vb == signed)
  {
  }

  lemma EvenBits(b: Bits)
    ensures Magnitude(b) % 2 == b % 2
  {
    assert b == Magnitude(b) || b == Magnitude(b) + MASK;
  }

  // ----- the conversion -----

  /** What the shifting loop keeps: the number it stands for. */
  lemma Shifted(n: nat, u: nat, e: nat)
    requires 0 < n && 0 < u < MASK && 127 <= e <= 158
    requires n * Pow2(158 - e) == u
    requires Normalised(n, MASK).0 == Normalised(u, MASK).0
    requires Normalised(n, MASK).1 == Normalised(u, MASK).1 + (158 - e)
    ensures e > 127
    ensures n * Pow2(159 - e) == 2 * u
    ensures Normalised(n, MASK).0 == Normalised(2 * u, MASK).0
    ensures Normalised(n, MASK).1 == Normalised(2 * u, MASK).1 + (159 - e)
  {
    Constants();
    ShiftBound(n, 158 - e, 31);
    Double(n, Pow2(158 - e));
  }

  /** The 23 fraction bits of a normalised `u`, rounded; `UNIT` when they overflow. */
  function RoundedFraction(u: nat): int {
    u / 256 - UNIT + if RoundUp(u, 256) then 1 else 0
  }

  lemma EncodingIs(n: nat, u: nat, e: nat, frac: nat)
    requires 0 < n < 2 * MASK && Normalised(n, MASK) == (u, 158 - e) && 127 <= e <= 158
    requires frac == RoundedFraction(u)
    ensures Rounds(UNIT, n * Pow2(SCALE), e * UNIT + frac)
  {
    Constants();
    ConvertedRounds(n, 32, 24, SCALE);
  }

  /** Converts `x`: the sign, then the magnitude shifted up to bit 31, then the fraction rounded. */
  method FloatI2F(x: Int32) returns (bits: Bits)
    ensures IsRounded(x, bits)
    ensures bits >= 0x8000_0000 <==> x < 0
    // no number with an exponent field below 255 is closer to x, and if one is as close, the last bit is 0
    ensures bits / 0x80_0000 % 256 < 255
    ensures forall c: Bits {:trigger Scaled(c)} :: c / 0x80_0000 % 256 < 255 ==>
              var d, e := Distance(Scaled(bits), x * Pow2(149)), Distance(Scaled(c), x * Pow2(149));
              d <= e && (d == e && Scaled(c) != Scaled(bits) ==> bits % 2 == 0)
  {
    bits := Convert(x);
    forall c: Bits
      ensures IsFinite(c) <==> c / 0x80_0000 % 256 < 255
    {
      Decoding(c);
    }
  }

  method Convert(x: Int32) returns (bits: Bits)
    ensures IsRounded(x, bits)
    ensures IsNegative(bits) <==> x < 0
  {
    Constants();
    if x == 0 {
      ZeroRounds();
      return 0;
    }
    var negative := x < 0;
    var e := 158;
    if x == -MASK {
      SmallestRounds();
      return MASK + e * UNIT;
    }
    var u := if negative then -x else x;
    ghost var n := u;
    assert n * Pow2(0) == n;
    while u < MASK
      invariant 0 < u < 2 * MASK && 127 <= e <= 158 && n == Abs(x)
      invariant n * Pow2(158 - e) == u
      invariant Normalised(n, MASK).0 == Normalised(u, MASK).0
      invariant Normalised(n, MASK).1 == Normalised(u, MASK).1 + (158 - e)
      decreases 2 * MASK - u
    {
      Shifted(n, u, e);
      u := 2 * u;
      e := e - 1;
    }
    bits := Assemble(x, u, e);
  }

  method Assemble(x: Int32, u: nat, e: nat) returns (bits: Bits)
    requires x != 0 && MASK <= u < 2 * MASK && 127 <= e <= 158
    requires Abs(x) < 2 * MASK && Normalised(Abs(x), MASK) == (u, 158 - e)
    ensures IsRounded(x, bits)
    ensures IsNegative(bits) <==> x < 0
  {
    var frac := RoundFraction(u);
    EncodingIs(Abs(x), u, e, frac);
    WithSign(x, e * UNIT + frac);
    bits := (if x < 0 then MASK else 0) + e * UNIT + frac;
  }

  /** The bit tests of the source, as arithmetic on the eight bits that are cut off. */
  method RoundFraction(u: nat) returns (frac: nat)
    requires MASK <= u < 2 * MASK
    ensures frac == RoundedFraction(u) && frac <= UNIT
  {
    frac := (u - MASK) / 256;
    if (u / 128) % 2 == 1 && (u % 128 > 0 || frac % 2 == 1) {
      frac := frac + 1;
    }
    FractionIs(u, frac);
  }

  lemma WithSign(x: Int32, m: nat)
    requires m < 255 * UNIT && Rounds(UNIT, Abs(x) * Pow2(SCALE), m)
    ensures var bits := (if x < 0 then MASK else 0) + m;
            bits < 0x1_0000_0000 && IsRounded(x, bits) && (IsNegative(bits) <==> x < 0)
  {
    SignBit(x < 0, m);
    SignedRounds(x, (if x < 0 then MASK else 0) + m);
  }

  lemma SignBit(negative: bool, m: nat)
    requires m < 255 * UNIT
    ensures var bits := (if negative then MASK else 0) + m;
            bits < 0x1_0000_0000 && Magnitude(bits) == m && IsFinite(bits) && (IsNegative(bits) <==> negative)
  {
  }

  lemma FractionIs(u: nat, frac: nat)
    requires MASK <= u < 2 * MASK
    requires var f := (u - MASK) / 256;
             frac == if (u / 128) % 2 == 1 && (u % 128 > 0 || f % 2 == 1) then f + 1 else f
    ensures frac == RoundedFraction(u) && frac <= UNIT
  {
    var q, r := u / 256, u % 256;
    Division(u, 256);
    DivMod(256, q - UNIT, r);
    var half := if r < 128 then 0 else 1;
    DivMod(128, 2 * q + half, r - 128 * half);
  }

  lemma ZeroRounds()
    ensures IsRounded(0, 0)
  {
  }

  lemma SmallestRounds()
    ensures IsRounded(-0x8000_0000, MASK + 158 * UNIT)
  {
    Constants();
    assert Normalised(MASK, MASK) == (MASK, 0);
    EncodingIs(MASK, MASK, 158, 0);
    WithSign(-0x8000_0000, 158 * UNIT);
  }
}
