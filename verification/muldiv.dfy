/** Double-width multiplication and division at 32 and 64 bits. */
module MulDiv {
  import opened Words
  import opened Operands
  import opened Alu
  import opened Processor
  import Division

  type Wide = n: Size | n == 4 || n == 8 witness 4

  const RAX: RegNo := 0
  const RDX: RegNo := 2

  // ---- Signed values ----

  /** The low bytes of `x` as a signed number: what a sign extension yields. */
  function SignExtend(x: int, n: Size): int { Signed(x % Modulus(n), n) }

  predicate FitsSigned(x: int, n: Size) { -(Modulus(n) / 2) <= x < Modulus(n) / 2 }

  lemma SignExtendFits(x: int, n: Size)
    ensures FitsSigned(SignExtend(x, n), n)
    ensures SignExtend(x, n) == x <==> FitsSigned(x, n)
  {
    var m := Modulus(n);
    if 0 <= x < m / 2 {
      Division.DivUnique(x, m, 0, x);
    } else if -(m / 2) <= x < 0 {
      Division.DivUnique(x, m, -1, x + m);
    }
  }

  /** Division as the machine does it: the quotient truncates towards zero. */
  function TruncDiv(a: int, v: int): int
    requires v != 0
  {
    if a >= 0 then (if v > 0 then a / v else -(a / -v)) else if v > 0 then -(-a / v) else -a / -v
  }

  function TruncRem(a: int, v: int): int
    requires v != 0
  {
    a - TruncDiv(a, v) * v
  }

  // ---- The instructions, on an operand already read ----

  const TWO128: int := TWO64 * TWO64

  /** RDX:RAX as one number of twice the width. */
  function Dividend(g: Regs, n: Wide): nat {
    if n == 4 then RegW(g, RDX, n) as int * TWO32 + RegW(g, RAX, n)
    else RegW(g, RDX, n) as int * TWO64 + RegW(g, RAX, n)
  }

  /** ... and as a signed one. */
  function SignedDividend(g: Regs, n: Wide): int {
    var a, end := Dividend(g, n), if n == 4 then TWO64 else TWO128;
    if a >= end / 2 then a - end else a
  }

  function PutPair(g: Regs, rax: u64, rdx: u64, n: Wide): Regs { SetRegW(SetRegW(g, RAX, n, rax), RDX, n, rdx) }

  function Overflowed(f: Eflags, c: bool): Eflags { SetFlag(SetFlag(f, CF, c), OF, c) }

  function Mul(g: Regs, f: Eflags, v: u64, n: Wide): (Regs, Eflags)
    requires v < Modulus(n)
  {
    var r: nat := RegW(g, RAX, n) * v;
    ProductFits(RegW(g, RAX, n), v, Modulus(n));
    (PutPair(g, r % Modulus(n), r / Modulus(n), n), Overflowed(f, r / Modulus(n) != 0))
  }

  function Imul(g: Regs, f: Eflags, v: u64, n: Wide): (Regs, Eflags)
    requires v < Modulus(n)
  {
    var r := SignExtend(RegW(g, RAX, n), n) * SignExtend(v, n);
    (PutPair(g, Wrap64(r), Wrap64(r / Modulus(n)), n), Overflowed(f, r != SignExtend(Wrap64(r), n)))
  }

  /** None is the divide error. */
  function Div(g: Regs, v: u64, n: Wide): Option<Regs>
    requires v < Modulus(n)
  {
    if v == 0 then None
    else
      var a := Dividend(g, n);
      var q, rem := a / v, a % v;
      if q > Modulus(n) - 1 then None else Some(PutPair(g, q, rem, n))
  }

  /** The one division whose quotient does not fit in the 128-bit arithmetic. */
  predicate OffTheEnd(g: Regs, v: u64, n: Wide) {
    n == 8 && RegW(g, RDX, n) == TWO64 / 2 && RegW(g, RAX, n) == 0 && v == TWO64 - 1
  }

  function Idiv(g: Regs, v: u64, n: Wide): Option<Regs>
    requires v < Modulus(n) && !OffTheEnd(g, v, n)
  {
    var d := SignExtend(v, n);
    if d == 0 then None
    else
      var a := SignedDividend(g, n);
      var q, rem := TruncDiv(a, d), TruncRem(a, d);
      if q != SignExtend(Wrap64(q), n) then None else Some(PutPair(g, Wrap64(q), Wrap64(rem), n))
  }

  // ---- Registers ----

  lemma ProductFits(a: nat, v: nat, m: nat)
    requires a < m && v < m
    ensures 0 <= a * v < m * m && 0 <= a * v / m < m
  {
    Division.MulMono(a, m, v);
    Division.MulMono(v, m, m);
    Division.MulMono(0, a, v);
    var q := a * v / m;
    if q >= m { Division.MulMono(m, q, m); }
  }

  lemma PairReads(g: Regs, rax: u64, rdx: u64, n: Wide)
    ensures var g' := PutPair(g, rax, rdx, n);
            && RegW(g', RAX, n) == rax % Modulus(n) && RegW(g', RDX, n) == rdx % Modulus(n)
            && forall i: RegNo :: i != RAX && i != RDX ==> g'[i] == g[i]
  {
  }

  /** A value cut to 64 bits and then to the operand is the value cut to it. */
  lemma CutIsCut(x: int, n: Wide)
    ensures Wrap64(x) % Modulus(n) == x % Modulus(n)
  {
    if n == 4 {
      Division.ModSplit(x, TWO32, TWO32);
      Division.DivUnique(x % TWO64, TWO32, x / TWO32 % TWO32, x % TWO32);
    }
  }

  // ---- DIV ----

  /** DIV. The divide error is raised exactly when the divisor is zero or the
      quotient does not fit; otherwise quotient and remainder are those of the
      double-width dividend, and no other register changes. */
  lemma DivExact(g: Regs, v: u64, n: Wide)
    requires v < Modulus(n)
    ensures Div(g, v, n).None? <==> v == 0 || Dividend(g, n) >= v * Modulus(n)
    ensures Div(g, v, n).Some? ==>
              var g' := Div(g, v, n).value;
              && RegW(g', RAX, n) * v + RegW(g', RDX, n) == Dividend(g, n)
              && RegW(g', RDX, n) < v
              && forall i: RegNo :: i != RAX && i != RDX ==> g'[i] == g[i]
  {
    hide RegW, SetRegW, PutPair, Dividend;
    if v != 0 {
      var a, m: nat := Dividend(g, n), Modulus(n);
      QuotientFits(a, v, m);
      if a / v <= m - 1 {
        PairReads(g, a / v, a % v, n);
        SmallMod(a / v, m);
        SmallMod(a % v, m);
      }
    }
  }

  lemma SmallMod(x: nat, m: nat)
    requires x < m
    ensures x % m == x
  {
    Division.DivUnique(x, m, 0, x);
  }

  lemma QuotientFits(a: nat, v: nat, m: nat)
    requires v > 0
    ensures 0 <= a % v < v && a / v >= 0 && a / v * v + a % v == a
    ensures a / v > m - 1 <==> a >= v * m
  {
    var q := a / v;
    if q >= m {
      Division.MulMono(m, q, v);
    } else {
      Division.MulMono(q + 1, m, v);
      Division.Distribute(q, 1, v);
    }
  }

  // ---- IDIV ----

  function Abs(x: int): int { if x < 0 then -x else x }

  /** `q` and `r` are the quotient and remainder of `a` by `d`, truncated: the
      remainder is smaller than the divisor and has the dividend's sign. */
  predicate Divides(a: int, d: int, q: int, r: int) {
    q * d + r == a && -Abs(d) < r < Abs(d) && (r == 0 || (r > 0 <==> a > 0))
  }

  lemma TruncFacts(a: int, d: int)
    requires d != 0
    ensures Divides(a, d, TruncDiv(a, d), TruncRem(a, d))
  {
    var x, y := Abs(a), Abs(d);
    QuotientFits(x, y, 1);
    Truncated(x / y, x % y, x, y);
    var r := if a >= 0 then x % y else -(x % y);
    assert Divides(a, d, TruncDiv(a, d), r);
    RemainderIs(a, d, TruncDiv(a, d), r);
  }

  /** The four sign combinations of one division of magnitudes. */
  lemma Truncated(q: int, r: int, x: int, y: int)
    requires y > 0 && x >= 0 && x == q * y + r && 0 <= r < y
    ensures Divides(x, y, q, r) && Divides(x, -y, -q, r)
    ensures x > 0 ==> Divides(-x, y, -q, -r) && Divides(-x, -y, q, -r)
  {
    Signs(q, y);
  }

  lemma RemainderIs(a: int, d: int, q: int, r: int)
    requires Divides(a, d, q, r)
    ensures r == a - q * d
  {
  }

  lemma Signs(q: int, d: int)
    ensures (-q) * d == -(q * d) && q * (-d) == -(q * d) && (-q) * (-d) == q * d
  {
  }

  /** What a division leaves, and exactly when it raises the divide error. */
  ghost predicate IdivIs(g: Regs, v: u64, n: Wide, back: Option<Regs>) {
    var a, d := SignedDividend(g, n), SignExtend(v, n);
    && (back.None? <==> d == 0 || !FitsSigned(TruncDiv(a, d), n))
    && (back.Some? ==>
          && Divides(a, d, SignExtend(RegW(back.value, RAX, n), n), SignExtend(RegW(back.value, RDX, n), n))
          && forall i: RegNo :: i != RAX && i != RDX ==> back.value[i] == g[i])
  }

  /** IDIV, away from the quotient 128-bit arithmetic cannot hold: quotient and
      remainder are those of the signed double-width dividend, and the divide
      error is raised exactly when the divisor is zero or the quotient does not fit. */
  lemma IdivExact(g: Regs, v: u64, n: Wide)
    requires v < Modulus(n) && !OffTheEnd(g, v, n)
    ensures IdivIs(g, v, n, Idiv(g, v, n))
  {
    hide RegW, SetRegW, PutPair, SignedDividend, TruncDiv, TruncRem, OffTheEnd, Modulus, Signed, SignExtend, Divides;
    var a, d := SignedDividend(g, n), SignExtend(v, n);
    SignExtendFits(v, n);
    if d != 0 {
      var q, r := TruncDiv(a, d), TruncRem(a, d);
      TruncFacts(a, d);
      ExtendCut(q, n);
      SignExtendFits(q, n);
      if FitsSigned(q, n) {
        PairReads(g, Wrap64(q), Wrap64(r), n);
        RemainderFits(a, d, q, r, n);
        ExtendTwice(q, n);
        ExtendTwice(r, n);
      }
    }
  }

  /** Cutting to 64 bits before extending does not matter. */
  lemma ExtendCut(x: int, n: Wide)
    ensures SignExtend(Wrap64(x), n) == SignExtend(x, n)
  {
    hide Modulus, Signed;
    CutIsCut(x, n);
  }

  lemma ExtendTwice(x: int, n: Wide)
    ensures SignExtend(Wrap64(x) % Modulus(n), n) == SignExtend(x, n)
  {
    hide Modulus, Signed;
    CutIsCut(x, n);
    SmallMod(x % Modulus(n), Modulus(n));
  }

  lemma RemainderFits(a: int, d: int, q: int, r: int, n: Wide)
    requires FitsSigned(d, n) && Divides(a, d, q, r)
    ensures FitsSigned(r, n) && SignExtend(r, n) == r
  {
    SignExtendFits(r, n);
  }

  // ---- Multiplying and dividing back ----

  lemma MulReads(g: Regs, f: Eflags, v: u64, n: Wide)
    requires v < Modulus(n)
    ensures var (g', f') := Mul(g, f, v, n);
            && Dividend(g', n) == RegW(g, RAX, n) * v
            && (GetFlag(f', CF) <==> RegW(g, RAX, n) * v >= Modulus(n)) && GetFlag(f', OF) == GetFlag(f', CF)
            && forall i: RegNo :: i != RAX && i != RDX ==> g'[i] == g[i]
  {
    hide SetRegW, PutPair;
    var a, m: nat := RegW(g, RAX, n), Modulus(n);
    ProductFits(a, v, m);
    var r := a * v;
    PairReads(g, r % m, r / m, n);
    SmallMod(r % m, m);
    SmallMod(r / m, m);
    QuotientFits(r, m, 1);
  }

  /** MUL then DIV by the same nonzero operand gives the accumulator back, with no
      remainder and no divide error. */
  lemma MulThenDiv(g: Regs, f: Eflags, v: u64, n: Wide)
    requires 0 < v < Modulus(n)
    ensures var back := Div(Mul(g, f, v, n).0, v, n);
            back.Some? && RegW(back.value, RAX, n) == RegW(g, RAX, n) && RegW(back.value, RDX, n) == 0
  {
    hide SetRegW, PutPair, Mul, Div, Dividend;
    var g1, a := Mul(g, f, v, n).0, RegW(g, RAX, n);
    MulReads(g, f, v, n);
    DivExact(g1, v, n);
    Division.MulMono(a + 1, Modulus(n), v);
    Division.Distribute(a, 1, v);
    if Div(g1, v, n).Some? {
      var g2 := Div(g1, v, n).value;
      Division.DivUnique(a * v, v, a, 0);
      Division.DivUnique(a * v, v, RegW(g2, RAX, n), RegW(g2, RDX, n));
    }
  }

  lemma Product(x: int, y: int, a: int, b: int)
    requires 0 <= x <= a && 0 <= y <= b
    ensures 0 <= x * y <= a * b
  {
    Division.MulMono(x, a, y);
    Division.MulMono(y, b, a);
    Division.MulMono(0, x, y);
  }

  lemma SignedProductFits(a: int, d: int, h: int)
    requires -h <= a < h && -h <= d < h
    ensures -(h * h) < a * d <= h * h
  {
    Division.Distribute(h, -1, h);
    Product(h, h, h, h);
    if a >= 0 && d >= 0 {
      Product(a, d, h, h);
    } else if a >= 0 {
      Product(a, -d, h - 1, h);
      Signs(a, d);
    } else if d >= 0 {
      Product(-a, d, h, h - 1);
      Signs(a, d);
      Signs(h, 1);
      assert h * (h - 1) == (h - 1) * h;
    } else {
      Product(-a, -d, h, h);
      Signs(a, d);
    }
  }

  /** What a signed multiplication leaves. */
  ghost predicate ImulIs(g: Regs, v: u64, n: Wide, g': Regs, f': Eflags) {
    var p := SignExtend(RegW(g, RAX, n), n) * SignExtend(v, n);
    && SignedDividend(g', n) == p
    && (GetFlag(f', CF) <==> !FitsSigned(p, n)) && GetFlag(f', OF) == GetFlag(f', CF)
    && !OffTheEnd(g', v, n)
    && forall i: RegNo :: i != RAX && i != RDX ==> g'[i] == g[i]
  }

  /** IMUL. RDX:RAX holds the exact signed product, and CF and OF say that it
      does not fit in the low half. */
  lemma ImulReads(g: Regs, f: Eflags, v: u64, n: Wide)
    requires v < Modulus(n)
    ensures var (g', f') := Imul(g, f, v, n); ImulIs(g, v, n, g', f')
  {
    hide SetRegW, PutPair, Signed, SignExtend, RegW, Modulus;
    var a, d := SignExtend(RegW(g, RAX, n), n), SignExtend(v, n);
    SignExtendFits(RegW(g, RAX, n), n);
    SignExtendFits(v, n);
    HalfModulus(n);
    SignedProductFits(a, d, Modulus(n) / 2);
    var r := a * d;
    PairReads(g, Wrap64(r), Wrap64(r / Modulus(n)), n);
    CutIsCut(r, n);
    CutIsCut(r / Modulus(n), n);
    ExtendCut(r, n);
    SignExtendFits(r, n);
    HighHalf(r, n);
  }

  lemma HalfModulus(n: Wide)
    ensures Modulus(n) == if n == 4 then TWO32 else TWO64
  {
  }

  /** A signed double-width number from its two halves. */
  lemma HighHalf(r: int, n: Wide)
    requires n == 4 ==> -(TWO64 / 4) < r <= TWO64 / 4
    requires n == 8 ==> -(TWO128 / 4) < r <= TWO128 / 4
    ensures n == 4 ==>
              var a, end := r / TWO32 % TWO32 * TWO32 + r % TWO32, TWO64;
              r == if a >= end / 2 then a - end else a
    ensures n == 8 ==>
              var a, end := r / TWO64 % TWO64 * TWO64 + r % TWO64, TWO128;
              (r == if a >= end / 2 then a - end else a) && r / TWO64 % TWO64 != TWO64 / 2
  {
    if n == 4 { Halved(r, TWO32); } else { Halved(r, TWO64); }
  }

  lemma Halved(r: int, m: int)
    requires m == TWO32 || m == TWO64
    requires -(m * m / 4) < r <= m * m / 4
    ensures r / m % m == if r >= 0 then r / m else r / m + m
    ensures -(m / 4) <= r / m <= m / 4
  {
    if r >= 0 {
      Division.DivUnique(r / m, m, 0, r / m);
    } else {
      Division.DivUnique(r / m, m, -1, r / m + m);
    }
  }

  lemma QuotientIs(a: int, d: int, q: int, r: int)
    requires d != 0 && Divides(a * d, d, q, r)
    ensures q == a && r == 0
  {
    Division.Distribute(a, -q, d);
    Signs(q, d);
    assert (a - q) * d == r;
    var k := a - q;
    if d > 0 {
      Division.SmallMultiple(k, d);
    } else {
      Signs(k, d);
      Division.SmallMultiple(k, -d);
    }
  }

  lemma ExactQuotient(a: int, d: int)
    requires d != 0
    ensures TruncDiv(a * d, d) == a
  {
    TruncFacts(a * d, d);
    QuotientIs(a, d, TruncDiv(a * d, d), TruncRem(a * d, d));
  }

  lemma SameExtension(x: u64, y: u64, n: Wide)
    requires x < Modulus(n) && y < Modulus(n) && SignExtend(x, n) == SignExtend(y, n)
    ensures x == y
  {
    SmallMod(x, Modulus(n));
    SmallMod(y, Modulus(n));
  }

  /** IMUL then IDIV by the same nonzero operand gives the accumulator back. */
  lemma ImulThenIdiv(g: Regs, f: Eflags, v: u64, n: Wide)
    requires 0 < v < Modulus(n)
    ensures var g1 := Imul(g, f, v, n).0;
            && !OffTheEnd(g1, v, n)
            && var back := Idiv(g1, v, n);
            back.Some? && RegW(back.value, RAX, n) == RegW(g, RAX, n) && RegW(back.value, RDX, n) == 0
  {
    hide SetRegW, PutPair, Imul, Idiv, SignedDividend, TruncDiv, Signed, SignExtend, RegW, Divides, Modulus, OffTheEnd;
    ImulReads(g, f, v, n);
    var g1 := Imul(g, f, v, n).0;
    IdivExact(g1, v, n);
    var a, d := SignExtend(RegW(g, RAX, n), n), SignExtend(v, n);
    if d == 0 { SameExtension(v, 0, n) by { ZeroExtension(n); } }
    ExactQuotient(a, d);
    SignExtendFits(RegW(g, RAX, n), n);
    var g2 := Idiv(g1, v, n).value;
    QuotientIs(a, d, SignExtend(RegW(g2, RAX, n), n), SignExtend(RegW(g2, RDX, n), n));
    RegFits(g2, n);
    RegFits(g, n);
    ZeroExtension(n);
    SameExtension(RegW(g2, RAX, n), RegW(g, RAX, n), n);
    SameExtension(RegW(g2, RDX, n), 0, n);
  }

  lemma ZeroExtension(n: Wide)
    ensures SignExtend(0, n) == 0
  {
  }

  lemma RegFits(g: Regs, n: Wide)
    ensures RegW(g, RAX, n) < Modulus(n) && RegW(g, RDX, n) < Modulus(n)
  {
  }
}
