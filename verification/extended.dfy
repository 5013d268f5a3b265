/** Doubles and the 80-bit extended format, as bit patterns. */
module Extended {
  import opened Words
  import opened Shifts
  import Division

  const TWO52: int := 0x10_0000_0000_0000
  const TWO63: int := 0x8000_0000_0000_0000

  /** The 80-bit format: `sig` holds its integer bit, `se` the sign above 15 exponent bits. */
  datatype F80 = F80(sig: u64, se: u16)

  // ---- Fields of a double ----

  function SignOf64(bits: u64): nat { bits / TWO63 }
  function ExpOf64(bits: u64): nat { bits / TWO52 % 0x800 }
  function MantOf64(bits: u64): nat { bits % TWO52 }

  function Make64(sign: nat, exp: nat, mant: nat): u64
    requires sign < 2 && exp < 0x800 && mant < TWO52
  {
    sign * TWO63 + exp * TWO52 + mant
  }

  lemma Parts64(bits: u64)
    ensures SignOf64(bits) < 2 && ExpOf64(bits) < 0x800 && MantOf64(bits) < TWO52
    ensures Make64(SignOf64(bits), ExpOf64(bits), MantOf64(bits)) == bits
  {
    Division.TwoDigits(bits, TWO52, 0x800);
  }

  lemma MakeParts(sign: nat, exp: nat, mant: nat)
    requires sign < 2 && exp < 0x800 && mant < TWO52
    ensures var bits := Make64(sign, exp, mant);
            SignOf64(bits) == sign && ExpOf64(bits) == exp && MantOf64(bits) == mant
  {
    var bits := Make64(sign, exp, mant);
    Division.DivUnique(bits, TWO52, sign * 0x800 + exp, mant);
    Division.DivUnique(sign * 0x800 + exp, 0x800, sign, exp);
    Division.DivUnique(bits, TWO63, sign, exp * TWO52 + mant);
  }

  // ---- Normalisation ----

  /** Zero bits above the leading one. */
  function LeadingZeros(x: u64): (lz: nat)
    ensures lz <= 64
  {
    LeadingZerosFrom(x, 64)
  }

  /** ... when the leading one is known to be below bit `k`. */
  function LeadingZerosFrom(x: u64, k: nat): (lz: nat)
    requires k <= 64
    ensures 64 - k <= lz <= 64
    decreases k
  {
    if k == 0 then 64 else if x >= Pow2(k - 1) then 64 - k else LeadingZerosFrom(x, k - 1)
  }

  lemma {:induction false} LeadingOne(x: u64, k: nat)
    requires k <= 64 && 0 < x < Pow2(k)
    ensures var lz := LeadingZerosFrom(x, k);
            lz < 64 && Pow2(63 - lz) <= x < Pow2(64 - lz)
    decreases k
  {
    if x < Pow2(k - 1) { LeadingOne(x, k - 1); }
  }

  /** Shifted left by its leading zeros a significand has its integer bit set, and
      nothing has been lost. */
  lemma Normalised(x: u64)
    requires x > 0
    ensures var lz := LeadingZeros(x); lz < 64 && TWO63 <= x * Pow2(lz) < TWO64
  {
    hide Pow2;
    PowBytes();
    LeadingOne(x, 64);
    var lz := LeadingZeros(x);
    PowAdd(63 - lz, lz);
    PowAdd(64 - lz, lz);
    PowNext(63);
    Division.MulMono(Pow2(63 - lz), x, Pow2(lz));
    Division.MulMono(x + 1, Pow2(64 - lz), Pow2(lz));
    Division.Distribute(x, 1, Pow2(lz));
  }

  // ---- The conversions ----

  const BIAS_GAP: nat := 16383 - 1023

  function ToF80(bits: u64): F80 {
    Parts64(bits);
    var sign, exp, mant := SignOf64(bits), ExpOf64(bits), MantOf64(bits);
    if exp == 0 && mant == 0 then F80(0, sign * 0x8000)
    else if exp == 0x7FF then F80(mant * 0x800 + TWO63, sign * 0x8000 + 0x7FFF)
    else if exp == 0 then
      // The wider exponent reaches this far down: shift the leading one into place.
      Normalised(mant);
      var lz := LeadingZeros(mant);
      F80(mant * Pow2(lz), sign * 0x8000 + (15372 - lz))
    else F80(mant * 0x800 + TWO63, sign * 0x8000 + exp + BIAS_GAP)
  }

  /** The significand with its leading one at bit 63 (a zero stays zero). */
  function Normal(sig: u64): u64 {
    if sig == 0 then 0
    else
      Normalised(sig);
      sig * Pow2(LeadingZeros(sig))
  }

  /** Round the 63 fraction bits of `sig` to 52, ties to even. */
  function RoundedFraction(sig: u64): nat {
    var frac := sig % TWO63;
    var m, rem := frac / 0x800, frac % 0x800;
    if rem > 0x400 || (rem == 0x400 && m % 2 == 1) then m + 1 else m
  }

  lemma FractionFits(sig: u64)
    ensures RoundedFraction(sig) <= TWO52
  {
  }

  function FromF80(x: F80): u64 {
    var sign, exp := x.se / 0x8000, x.se % 0x8000;
    if exp == 0 && x.sig == 0 then Make64(sign, 0, 0)
    else if exp == 0x7FFF then Make64(sign, 0x7FF, x.sig % TWO63 / 0x800)
    else
      var sig := Normal(x.sig);
      var e: int := exp - LeadingZeros(x.sig) - BIAS_GAP;
      if e >= 0x7FF then Make64(sign, 0x7FF, 0)
      else if e <= 0 then
        // Below the normal doubles the low bits are dropped without rounding.
        var shift := 12 - e;
        Denormal(sig, shift);
        sign * TWO63 + if shift >= 64 then 0 else sig / Pow2(shift)
      else
        FractionFits(sig);
        var m := RoundedFraction(sig);
        // A carry out of the fraction goes into the exponent.
        sign * TWO63 + if m == TWO52 then (e + 1) * TWO52 else e * TWO52 + m
  }

  lemma Denormal(sig: u64, shift: nat)
    requires shift >= 12
    ensures 0 <= sig / Pow2(shift) < TWO52
  {
    hide Pow2;
    TwelveBits();
    PowMono(12, shift);
  }

  lemma TwelveBits()
    ensures Pow2(12) == 0x1000
  {
    assert Pow2(6) == 0x40;
    hide Pow2;
    PowAdd(6, 6);
  }

  // ---- Round trip ----

  lemma LeadingZerosOfTop(x: u64)
    requires x >= TWO63
    ensures LeadingZeros(x) == 0 && Normal(x) == x
  {
    hide Pow2;
    PowBytes();
    PowNext(63);
    assert Pow2(0) == 1 by { ZeroPower(); }
  }

  lemma ZeroPower()
    ensures Pow2(0) == 1
  {
  }

  lemma DenormalRoundTrip(sign: nat, mant: nat)
    requires sign < 2 && 0 < mant < TWO52
    ensures FromF80(ToF80(Make64(sign, 0, mant))) == Make64(sign, 0, mant)
  {
    hide Pow2, LeadingZeros, Make64, SignOf64, ExpOf64, MantOf64, Normal, RoundedFraction;
    MakeParts(sign, 0, mant);
    Normalised(mant);
    var lz := LeadingZeros(mant);
    var sig: u64 := mant * Pow2(lz);
    DenormalZeros(mant);
    LeadingZerosOfTop(sig);
    Denormal(sig, lz);
    Division.DivUnique(sig, Pow2(lz), mant, 0);
    assert sign * TWO63 + mant == Make64(sign, 0, mant) by { MakeIs(sign, 0, mant); }
  }

  lemma MakeIs(sign: nat, exp: nat, mant: nat)
    requires sign < 2 && exp < 0x800 && mant < TWO52
    ensures Make64(sign, exp, mant) == sign * TWO63 + exp * TWO52 + mant
  {
  }

  /** A denormal significand has at least the twelve zeros of sign and exponent. */
  lemma DenormalZeros(mant: nat)
    requires 0 < mant < TWO52
    ensures LeadingZeros(mant) >= 12
  {
    hide Pow2;
    Normalised(mant);
    var lz := LeadingZeros(mant);
    if lz < 12 {
      PowMono(lz, 11);
      assert Pow2(11) == 0x800 by { ElevenBits(); }
      Division.MulMono(mant, TWO52 - 1, Pow2(lz));
      Division.MulMono(Pow2(lz), 0x800, TWO52 - 1);
    }
  }

  lemma ElevenBits()
    ensures Pow2(11) == 0x800
  {
    TwelveBits();
  }

  lemma NormalRoundTrip(sign: nat, exp: nat, mant: nat)
    requires sign < 2 && 0 < exp < 0x7FF && mant < TWO52
    ensures FromF80(ToF80(Make64(sign, exp, mant))) == Make64(sign, exp, mant)
  {
    hide Pow2, LeadingZeros, Make64, SignOf64, ExpOf64, MantOf64, Normal;
    MakeParts(sign, exp, mant);
    var sig: u64 := mant * 0x800 + TWO63;
    LeadingZerosOfTop(sig);
    MakeIs(sign, exp, mant);
  }

  lemma SpecialRoundTrip(sign: nat, mant: nat)
    requires sign < 2 && mant < TWO52
    ensures FromF80(ToF80(Make64(sign, 0x7FF, mant))) == Make64(sign, 0x7FF, mant)
    ensures FromF80(ToF80(Make64(sign, 0, 0))) == Make64(sign, 0, 0)
  {
    hide Pow2, LeadingZeros, Make64, SignOf64, ExpOf64, MantOf64, Normal, RoundedFraction;
    MakeParts(sign, 0x7FF, mant);
    MakeParts(sign, 0, 0);
  }

  /** Every double -- denormals, infinities and NaN payloads included -- survives
      the conversion to the extended format and back bit for bit. */
  lemma RoundTrip(bits: u64)
    ensures FromF80(ToF80(bits)) == bits
  {
    hide FromF80, ToF80, Make64;
    Parts64(bits);
    var sign, exp, mant := SignOf64(bits), ExpOf64(bits), MantOf64(bits);
    if exp == 0x7FF || (exp == 0 && mant == 0) {
      SpecialRoundTrip(sign, mant);
    } else if exp == 0 {
      DenormalRoundTrip(sign, mant);
    } else {
      NormalRoundTrip(sign, exp, mant);
    }
  }

  /** Widening is exact: the extended number, integer bit set, is the double's significand
      moved left by `k` bits, and its exponent is the double's in the wider bias less `k`.
      Infinities and NaNs keep theirs, payload in place. */
  lemma WidensExactly(bits: u64) returns (k: nat)
    requires ExpOf64(bits) > 0 || MantOf64(bits) > 0
    ensures var x, exp := ToF80(bits), ExpOf64(bits);
            var m := if exp == 0 then MantOf64(bits) else TWO52 + MantOf64(bits);
            && x.se / 0x8000 == SignOf64(bits) && x.sig >= TWO63 && x.sig == m * Pow2(k)
            && (x.se % 0x8000 == 0x7FFF <==> exp == 0x7FF)
            && (exp < 0x7FF ==> x.se % 0x8000 + k == (if exp == 0 then 1 else exp) + 16383 - 1023 + 11)
            && (exp > 0 ==> k == 11)
  {
    Parts64(bits);
    var sign, exp, mant := SignOf64(bits), ExpOf64(bits), MantOf64(bits);
    var low := ToF80(bits).se - sign * 0x8000;
    if exp == 0 {
      Normalised(mant);
      k := LeadingZeros(mant);
    } else {
      k := 11;
      ElevenBits();
    }
    hide Pow2, LeadingZeros;
    Division.DivUnique(ToF80(bits).se, 0x8000, sign, low);
  }

  // ---- Rounding ----

  /** The significand a double stands for, in units of bit 0 of an extended
      significand whose biased double exponent is `e`. An exponent one past the
      largest finite one stands for the value rounding would give if it were finite. */
  function Units(bits: u64, e: nat): nat {
    (TWO52 + MantOf64(bits)) * 0x800 * (if ExpOf64(bits) == e then 1 else 2)
  }

  /** `r` is the multiple of 2048 nearest to `sig`, the even one of two equally near. */
  ghost predicate NearestEven(sig: nat, r: nat) {
    && r % 0x800 == 0
    && (forall k: nat :: Distance(sig, r) <= Distance(sig, k * 0x800))
    && (forall k: nat :: Distance(sig, r) == Distance(sig, k * 0x800) && k * 0x800 != r ==> r / 0x800 % 2 == 0)
  }

  function Distance(a: int, b: int): int { if a < b then b - a else a - b }

  lemma RoundingIsNearest(sig: u64)
    requires sig >= TWO63
    ensures NearestEven(sig, (TWO52 + RoundedFraction(sig)) * 0x800)
  {
    var frac := sig % TWO63;
    Division.DivUnique(sig, TWO63, 1, sig - TWO63);
    var m, rem := frac / 0x800, frac % 0x800;
    var r := (TWO52 + RoundedFraction(sig)) * 0x800;
    assert sig == (TWO52 + m) * 0x800 + rem;
    assert TWO52 % 2 == 0;
    forall k: nat
      ensures Distance(sig, r) <= Distance(sig, k * 0x800)
      ensures Distance(sig, r) == Distance(sig, k * 0x800) && k * 0x800 != r ==> r / 0x800 % 2 == 0
    {
      if k <= TWO52 + m {
        assert k * 0x800 <= (TWO52 + m) * 0x800;
      } else {
        assert k * 0x800 >= (TWO52 + m + 1) * 0x800;
      }
    }
  }

  /** A finite extended number other than zero, its significand shifted so that the
      integer bit is set and its exponent lowered to match: above the doubles it becomes
      an infinity; in their normal range the nearest one, ties to even; below it the
      largest one in magnitude that is not above. The sign is kept. */
  lemma ConversionRounds(x: F80)
    requires x.sig > 0 && x.se % 0x8000 != 0x7FFF
    ensures var lz, bits := LeadingZeros(x.sig), FromF80(x);
            var n, e: int := x.sig * Pow2(lz), x.se % 0x8000 - lz - BIAS_GAP;
            && TWO63 <= n < TWO64 && SignOf64(bits) == x.se / 0x8000
            && (e >= 0x7FF ==> ExpOf64(bits) == 0x7FF && MantOf64(bits) == 0)
            && (1 <= e < 0x7FF ==>
                  && (ExpOf64(bits) == e || ExpOf64(bits) == e + 1)
                  && NearestEven(n, Units(bits, e)))
            && (e <= 0 ==>
                  && ExpOf64(bits) == 0
                  && MantOf64(bits) * Pow2(12 - e) <= n < (MantOf64(bits) + 1) * Pow2(12 - e))
  {
    hide Pow2, LeadingZeros, Make64, SignOf64, ExpOf64, MantOf64, RoundedFraction, NearestEven, Units;
    Normalised(x.sig);
    var sign, lz := x.se / 0x8000, LeadingZeros(x.sig);
    var n: u64, e: int := x.sig * Pow2(lz), x.se % 0x8000 - lz - BIAS_GAP;
    if e >= 0x7FF {
      MakeParts(sign, 0x7FF, 0);
    } else if e >= 1 {
      RoundsNormal(sign, e, n);
    } else {
      Denormal(n, 12 - e);
      Cut(n, 12 - e);
      var m := if 12 - e >= 64 then 0 else n / Pow2(12 - e);
      MakeParts(sign, 0, m);
      MakeIs(sign, 0, m);
    }
  }

  /** The numbers left: infinities and NaNs keep their sign and the upper bits of their
      payload; a zero significand is a zero where the exponent is, but a power of two or an
      infinity when the exponent is large enough. */
  lemma OthersConvert(x: F80)
    requires x.sig == 0 || x.se % 0x8000 == 0x7FFF
    ensures var bits, e: int := FromF80(x), x.se % 0x8000 - 64 - BIAS_GAP;
            && SignOf64(bits) == x.se / 0x8000
            && (x.se % 0x8000 == 0x7FFF ==> ExpOf64(bits) == 0x7FF && MantOf64(bits) == x.sig / 0x800 % TWO52)
            && (x.se % 0x8000 < 0x7FFF ==>
                  MantOf64(bits) == 0 && ExpOf64(bits) == if e <= 0 then 0 else if e >= 0x7FF then 0x7FF else e)
  {
    hide Make64, SignOf64, ExpOf64, MantOf64, Pow2;
    var sign, exp := x.se / 0x8000, x.se % 0x8000;
    if exp == 0x7FFF {
      Payload(x.sig);
      MakeParts(sign, 0x7FF, x.sig / 0x800 % TWO52);
    } else {
      var e: int := exp - 64 - BIAS_GAP;
      assert LeadingZeros(0) == 64 by { NoLeadingOne(64); }
      var k := if e <= 0 then 0 else if e >= 0x7FF then 0x7FF else e;
      MakeParts(sign, k, 0);
      MakeIs(sign, k, 0);
      assert RoundedFraction(0) == 0;
    }
  }

  lemma Payload(sig: u64)
    ensures sig % TWO63 / 0x800 == sig / 0x800 % TWO52
  {
    Division.ModSplit(sig, 0x800, TWO52);
    Division.DivUnique(sig % TWO63, 0x800, sig / 0x800 % TWO52, sig % 0x800);
  }

  lemma {:induction false} NoLeadingOne(k: nat)
    requires k <= 64
    ensures LeadingZerosFrom(0, k) == 64
  {
    if k > 0 { NoLeadingOne(k - 1); }
  }

  lemma RoundsNormal(sign: nat, e: nat, n: u64)
    requires sign < 2 && 1 <= e < 0x7FF && n >= TWO63
    ensures RoundedFraction(n) <= TWO52
    ensures var m := RoundedFraction(n);
            var bits := sign * TWO63 + if m == TWO52 then (e + 1) * TWO52 else e * TWO52 + m;
            && bits < TWO64 && SignOf64(bits) == sign
            && (ExpOf64(bits) == e || ExpOf64(bits) == e + 1) && NearestEven(n, Units(bits, e))
  {
    hide Make64, SignOf64, ExpOf64, MantOf64, RoundedFraction, NearestEven;
    FractionFits(n);
    RoundingIsNearest(n);
    var m := RoundedFraction(n);
    if m == TWO52 {
      MakeParts(sign, e + 1, 0);
      MakeIs(sign, e + 1, 0);
    } else {
      MakeParts(sign, e, m);
      MakeIs(sign, e, m);
    }
  }

  /** What is left of `n` after a shift is what fits of the divisor. */
  lemma Cut(n: u64, shift: nat)
    ensures var m := if shift >= 64 then 0 else n / Pow2(shift);
            m * Pow2(shift) <= n < (m + 1) * Pow2(shift)
  {
    hide Pow2;
    if shift >= 64 {
      PowMono(64, shift);
      PowBytes();
    }
  }
}
