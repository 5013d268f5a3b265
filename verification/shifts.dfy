/** Shifts and rotates of every width, against moving one bit at a time. */
module Shifts {
  import opened Words
  import opened Operands
  import opened Alu
  import Division

  datatype ShiftOp = Shl | Shr | Sar | Rol | Ror | Rcl | Rcr

  // ---- Powers of two ----

  function Pow2(k: nat): (p: nat)
    ensures p > 0
  {
    if k == 0 then 1 else 2 * Pow2(k - 1)
  }

  lemma {:induction false} PowAdd(a: nat, b: nat)
    ensures Pow2(a + b) == Pow2(a) * Pow2(b)
    decreases a
  {
    if a > 0 {
      PowAdd(a - 1, b);
      Division.Distribute(2, Pow2(a - 1), Pow2(b));
    }
  }

  lemma PowNext(k: nat)
    ensures Pow2(k + 1) == 2 * Pow2(k)
  {
  }

  lemma PowBytes()
    ensures Pow2(8) == 0x100 && Pow2(16) == 0x1_0000 && Pow2(32) == TWO32 && Pow2(64) == TWO64
  {
    assert Pow2(4) == 16;
    assert Pow2(8) == 0x100;
    hide Pow2;
    PowAdd(8, 8);
    PowAdd(16, 16);
    PowAdd(32, 32);
  }

  lemma Widths(n: Size)
    ensures Pow2(8 * n) == Modulus(n) && Pow2(64) == TWO64 && Pow2(8 * n - 1) == Modulus(n) / 2
  {
    hide Pow2;
    PowBytes();
    PowNext(8 * n - 1);
  }

  /** The top bit of a value of two halves, and what is below it. */
  lemma Halves(x: nat, half: nat)
    requires half > 0 && x < 2 * half
    ensures x / half == (if x >= half then 1 else 0) && x % half == if x >= half then x - half else x
  {
    Division.DivUnique(x, half, if x >= half then 1 else 0, if x >= half then x - half else x);
  }

  // ---- One bit at a time ----

  /** One step of an operation on a `w`-bit value and the carry flag. */
  function Step(op: ShiftOp, x: (nat, bool), w: nat): (nat, bool)
    requires w > 0
  {
    var half := Pow2(w - 1);
    var (v, c) := x;
    var doubled := if v >= half then 2 * v - 2 * half else 2 * v;
    match op
    case Shl => (doubled, v >= half)
    case Shr => (v / 2, v % 2 == 1)
    case Sar => (v / 2 + (if v >= half then half else 0), v % 2 == 1)
    case Rol => (doubled + (if v >= half then 1 else 0), v >= half)
    case Ror => (v / 2 + (if v % 2 == 1 then half else 0), v % 2 == 1)
    case Rcl => (doubled + (if c then 1 else 0), v >= half)
    case Rcr => (v / 2 + (if c then half else 0), v % 2 == 1)
  }

  function Steps(op: ShiftOp, x: (nat, bool), w: nat, n: nat): (nat, bool)
    requires w > 0
    decreases n
  {
    if n == 0 then x else Step(op, Steps(op, x, w, n - 1), w)
  }

  // ---- Shifts in one go ----

  /** `v * 2^a` keeps the low `b` bits of `v` when cut to `a + b` bits. */
  lemma LowPart(v: nat, a: nat, b: nat)
    ensures v * Pow2(a) % Pow2(a + b) == v % Pow2(b) * Pow2(a)
    ensures v * Pow2(a) / Pow2(a + b) == v / Pow2(b)
  {
    hide Pow2;
    PowAdd(a, b);
    var q, r, pa, pb := v / Pow2(b), v % Pow2(b), Pow2(a), Pow2(b);
    assert v * pa == q * (pa * pb) + r * pa by {
      assert v == q * pb + r;
      Division.Distribute(q * pb, r, pa);
      Division.Distribute(q, pb, pa);
    }
    assert 0 <= r * pa < pa * pb by {
      Division.MulMono(r + 1, pb, pa);
      Division.Distribute(r, 1, pa);
      Division.MulMono(0, r, pa);
    }
    Division.DivUnique(v * pa, pa * pb, q, r * pa);
  }

  /** Cutting to 64 bits first does not matter. */
  lemma CutTwice(x: nat, a: nat, b: nat)
    ensures x % Pow2(a + b) % Pow2(a) == x % Pow2(a)
  {
    PowAdd(a, b);
    var pa, pb := Pow2(a), Pow2(b);
    Division.ModSplit(x, pa, pb);
    assert x % (pa * pb) == (x / pa % pb) * pa + x % pa;
    Division.DivUnique(x % (pa * pb), pa, x / pa % pb, x % pa);
  }

  lemma {:induction false} ShlSteps(v: nat, c: bool, w: nat, n: nat)
    requires w > 0 && v < Pow2(w) && n > 0
    ensures Steps(Shl, (v, c), w, n).0 == v * Pow2(n) % Pow2(w)
    ensures Steps(Shl, (v, c), w, n).1 <==> n <= w && v / Pow2(w - n) % 2 == 1
    decreases n
  {
    hide Pow2;
    var before := Steps(Shl, (v, c), w, n - 1).0;
    if n > 1 {
      ShlSteps(v, c, w, n - 1);
    } else {
      Unshifted(v, w);
    }
    ShlStep(v, w, n, before);
  }

  lemma Unshifted(v: nat, w: nat)
    requires v < Pow2(w)
    ensures v * Pow2(0) % Pow2(w) == v && v * Pow2(0) == v
  {
    assert v * Pow2(0) == v;
    Division.DivUnique(v, Pow2(w), 0, v);
  }

  lemma ShlStep(v: nat, w: nat, n: nat, before: nat)
    requires w > 0 && v < Pow2(w) && n > 0 && before == v * Pow2(n - 1) % Pow2(w)
    ensures (if before >= Pow2(w - 1) then 2 * before - 2 * Pow2(w - 1) else 2 * before) == v * Pow2(n) % Pow2(w)
    ensures before >= Pow2(w - 1) <==> n <= w && v / Pow2(w - n) % 2 == 1
  {
    hide Pow2;
    PowNext(w - 1);
    Halves(before, Pow2(w - 1));
    if n <= w {
      ShlBit(v, w, n);
    } else {
      ShlOut(v, w, n - 1);
      ShlOut(v, w, n);
    }
  }

  /** The `n`-th bit shifted out, and what is left. */
  lemma ShlBit(v: nat, w: nat, n: nat)
    requires 0 < n <= w && v < Pow2(w)
    ensures var before := v * Pow2(n - 1) % Pow2(w);
            && before % Pow2(w - 1) * 2 == v * Pow2(n) % Pow2(w)
            && (before >= Pow2(w - 1) <==> v / Pow2(w - n) % 2 == 1)
  {
    hide Pow2;
    var a, b := n - 1, w - n;
    LowPart(v, a, b + 1);
    LowPart(v, n, b);
    PowAdd(a, b);
    PowNext(a);
    PowNext(b);
    SplitTop(v, Pow2(a), Pow2(b));
  }

  /** `v` cut to one bit more than `pb` and scaled by `pa`: the top bit stands alone. */
  lemma SplitTop(v: nat, pa: nat, pb: nat)
    requires pa > 0 && pb > 0
    ensures var y := v % (2 * pb) * pa;
            && pa * pb > 0
            && y % (pa * pb) * 2 == v % pb * (2 * pa)
            && (y >= pa * pb <==> v / pb % 2 == 1)
  {
    var top, low := v / pb % 2, v % pb;
    Division.ModSplit(v, pb, 2);
    assert v % (pb * 2) == low + pb * top;
    Scaled(top, low, pa, pb);
  }

  lemma Scaled(top: nat, low: nat, pa: nat, pb: nat)
    requires pa > 0 && low < pb && top <= 1
    ensures pa * pb > 0 && low * pa < pa * pb
    ensures var y := (low + pb * top) * pa;
            && y == top * (pa * pb) + low * pa
            && y % (pa * pb) * 2 == low * (2 * pa) && (y >= pa * pb <==> top == 1)
  {
    Division.Distribute(low, pb * top, pa);
    Division.Distribute(pb, top, pa);
    Division.Distribute(low, 1, pa);
    Division.MulMono(low + 1, pb, pa);
    Division.MulMono(0, low, pa);
    Division.Distribute(low, 2, pa);
    Division.DivUnique(top * (pa * pb) + low * pa, pa * pb, top, low * pa);
  }

  lemma ShlOut(v: nat, w: nat, n: nat)
    requires n >= w
    ensures v * Pow2(n) % Pow2(w) == 0
  {
    hide Pow2;
    PowAdd(n - w, w);
    Division.Distribute(v, Pow2(n - w), Pow2(w));
    Division.DivUnique(v * Pow2(n), Pow2(w), v * Pow2(n - w), 0);
  }

  lemma {:induction false} ShrSteps(v: nat, c: bool, w: nat, n: nat)
    requires w > 0 && v < Pow2(w) && n > 0
    ensures Steps(Shr, (v, c), w, n) == (v / Pow2(n), v / Pow2(n - 1) % 2 == 1)
    decreases n
  {
    if n > 1 { ShrSteps(v, c, w, n - 1); }
    Division.DivDiv(v, Pow2(n - 1), 2);
    assert v / Pow2(0) == v;
  }

  lemma {:induction false} PowMono(a: nat, b: nat)
    requires a <= b
    ensures Pow2(a) <= Pow2(b)
    decreases b - a
  {
    if a < b { PowMono(a, b - 1); }
  }

  lemma ShrOut(v: nat, w: nat, n: nat)
    requires v < Pow2(w) && n >= w
    ensures v / Pow2(n) == 0
  {
    PowMono(w, n);
    Division.DivUnique(v, Pow2(n), 0, v);
  }

  /** The low `w` bits of `v` read as two's complement. */
  function SignOf(v: nat, w: nat): int
    requires w > 0
  {
    if v >= Pow2(w - 1) then v - Pow2(w) else v
  }

  lemma {:induction false} SarSteps(v: nat, c: bool, w: nat, n: nat)
    requires w > 0 && v < Pow2(w) && n > 0
    ensures var s, x := SignOf(v, w), Steps(Sar, (v, c), w, n);
            x.0 < Pow2(w) && SignOf(x.0, w) == s / Pow2(n) && (x.1 <==> s / Pow2(n - 1) % 2 == 1)
    decreases n
  {
    var s, y := SignOf(v, w), Steps(Sar, (v, c), w, n - 1).0;
    if n > 1 { SarSteps(v, c, w, n - 1); }
    assert y < Pow2(w) && SignOf(y, w) == s / Pow2(n - 1);
    Division.DivDiv(s, Pow2(n - 1), 2);
  }

  /** Past the width a signed shift has nothing left to change. */
  lemma SarOut(v: nat, w: nat, n: nat)
    requires w > 0 && v < Pow2(w) && n >= w - 1
    ensures SignOf(v, w) / Pow2(n) == SignOf(v, w) / Pow2(w - 1)
  {
    PowMono(w - 1, n);
    var s := SignOf(v, w);
    if s < 0 {
      Division.DivUnique(s, Pow2(n), -1, s + Pow2(n));
      Division.DivUnique(s, Pow2(w - 1), -1, s + Pow2(w - 1));
    } else {
      Division.DivUnique(s, Pow2(n), 0, s);
      Division.DivUnique(s, Pow2(w - 1), 0, s);
    }
  }

  lemma SignBack(z: nat, w: nat)
    requires w > 0 && z < Pow2(w)
    ensures SignOf(z, w) % Pow2(w) == z
  {
    if z >= Pow2(w - 1) {
      Division.DivUnique(z - Pow2(w), Pow2(w), -1, z);
    } else {
      Division.DivUnique(z, Pow2(w), 0, z);
    }
  }

  // ---- Rotations of an N-bit ring ----

  /** `x` cut at `cut`: the low part moved up by the factor `p`, the high part
      come round below it. */
  function RoundTheRing(x: nat, cut: nat, p: nat): nat
    requires cut > 0
  {
    var high, low := x / cut, x % cut;
    Division.MulMono(0, low, p);
    low * p + high
  }

  /** Rotate the `N`-bit value `x` left by `k` places. */
  function Rotl(x: nat, N: nat, k: nat): nat
    requires k <= N
  {
    RoundTheRing(x, Pow2(N - k), Pow2(k))
  }

  function RolStep(x: nat, N: nat): nat
    requires N > 0
  {
    var half := Pow2(N - 1);
    if x >= half then 2 * x - 2 * half + 1 else 2 * x
  }

  function RorStep(x: nat, N: nat): nat
    requires N > 0
  {
    x / 2 + if x % 2 == 1 then Pow2(N - 1) else 0
  }

  lemma RolThenRor(x: nat, N: nat)
    requires N > 0 && x < Pow2(N)
    ensures RolStep(x, N) < Pow2(N) && RorStep(RolStep(x, N), N) == x
  {
    hide Pow2;
    PowNext(N - 1);
    Halves(x, Pow2(N - 1));
  }

  lemma RotlNext(x: nat, N: nat, k: nat)
    requires k < N && x < Pow2(N)
    ensures Rotl(x, N, k) < Pow2(N) && Rotl(x, N, k + 1) == RolStep(Rotl(x, N, k), N)
  {
    hide Pow2, RoundTheRing, Factors;
    RingPowers(N, k);
    var pa, pb, p := Pow2(N - k - 1), Pow2(k), Pow2(N - 1);
    RingNext(x, pa, pb, p);
    var y := Rotl(x, N, k);
    assert y == RoundTheRing(x, 2 * pa, pb);
    assert Rotl(x, N, k + 1) == RoundTheRing(x, pa, 2 * pb) by { assert N - (k + 1) == N - k - 1; }
    hide Rotl;
  }

  lemma RingPowers(N: nat, k: nat)
    requires k < N
    ensures Factors(Pow2(N - 1), Pow2(N - k - 1), Pow2(k)) && Pow2(N) == 2 * Pow2(N - 1)
    ensures Pow2(N - k) == 2 * Pow2(N - k - 1) && Pow2(k + 1) == 2 * Pow2(k)
  {
    PowAdd(N - k - 1, k);
  }

  /** One more place round a ring of `2 * pa * pb` values. */
  predicate Factors(p: nat, a: nat, b: nat) { a > 0 && b > 0 && p == a * b }

  lemma RingNext(x: nat, pa: nat, pb: nat, p: nat)
    requires Factors(p, pa, pb) && x < 2 * p
    ensures pa > 0
    ensures var y := RoundTheRing(x, 2 * pa, pb);
            y < 2 * p && RoundTheRing(x, pa, 2 * pb) == if y >= p then 2 * y - 2 * p + 1 else 2 * y
  {
    Division.TwoDigits(x, pa, 2);
    HighPart(x, pa, pb);
    RingDigits(x / (2 * pa), x / pa % 2, x % pa, pa, pb);
  }

  lemma RingDigits(h: nat, bit: nat, low: nat, pa: nat, pb: nat)
    requires low < pa && h < pb && bit <= 1
    ensures var y := (low + pa * bit) * pb + h;
            && pa * pb > 0 && y < 2 * (pa * pb)
            && low * (2 * pb) + (2 * h + bit) == if y >= pa * pb then 2 * y - 2 * (pa * pb) + 1 else 2 * y
  {
    Scaled(bit, low, pb, pa);
    RoomFor(low, h, pa, pb);
    var p := pa * pb;
    assert pb * pa == p;
    var rest := low * pb + h;
    assert bit * p == if bit == 1 then p else 0;
    assert low * (2 * pb) == low * pb * 2 by { Division.Distribute(low, 2, pb); }
  }

  lemma HighPart(x: nat, pa: nat, pb: nat)
    requires pa > 0 && pb > 0 && x < 2 * (pa * pb)
    ensures x / (2 * pa) < pb
  {
    var h := x / (2 * pa);
    Division.Distribute(pb, 2, pa);
    assert h * (2 * pa) <= x < pb * (2 * pa);
    if h >= pb { Division.MulMono(pb, h, 2 * pa); }
  }

  lemma RoomFor(low: nat, h: nat, pa: nat, pb: nat)
    requires low < pa && h < pb
    ensures 0 <= low * pb + h < pa * pb
  {
    Division.MulMono(low + 1, pa, pb);
    Division.Distribute(low, 1, pb);
    Division.MulMono(0, low, pb);
  }

  lemma RotlEnds(x: nat, N: nat)
    requires x < Pow2(N)
    ensures Rotl(x, N, 0) == x && Rotl(x, N, N) == x
  {
    Division.DivUnique(x, Pow2(N), 0, x);
  }

  function IterRol(x: nat, N: nat, n: nat): nat
    requires N > 0
  {
    if n == 0 then x else RolStep(IterRol(x, N, n - 1), N)
  }

  function IterRor(x: nat, N: nat, n: nat): nat
    requires N > 0
  {
    if n == 0 then x else RorStep(IterRor(x, N, n - 1), N)
  }

  /** Position after `n` single places round a ring of `N`: `n` modulo `N`. */
  function Turn(n: nat, N: nat): (k: nat)
    requires N > 0
    ensures k < N
  {
    if n == 0 then 0 else if Turn(n - 1, N) + 1 == N then 0 else Turn(n - 1, N) + 1
  }

  lemma {:induction false} TurnIsMod(n: nat, N: nat)
    requires N > 0
    ensures Turn(n, N) == n % N
  {
    if n > 0 {
      TurnIsMod(n - 1, N);
      NextMod(n - 1, N);
    }
  }

  lemma NextMod(n: nat, N: nat)
    requires N > 0
    ensures (n + 1) % N == if n % N + 1 == N then 0 else n % N + 1
  {
    if n % N + 1 == N {
      Division.Distribute(n / N, 1, N);
      Division.DivUnique(n + 1, N, n / N + 1, 0);
    } else {
      Division.DivUnique(n + 1, N, n / N, n % N + 1);
    }
  }

  /** `n` single-bit rotates left are one rotate by `n` modulo the ring. */
  lemma {:induction false} IterRolIs(x: nat, N: nat, n: nat)
    requires N > 0 && x < Pow2(N)
    ensures IterRol(x, N, n) == Rotl(x, N, Turn(n, N)) < Pow2(N)
    decreases n
  {
    hide Pow2, Rotl, RolStep;
    RotlEnds(x, N);
    if n > 0 {
      IterRolIs(x, N, n - 1);
      RotlNext(x, N, Turn(n - 1, N));
      RolThenRor(Rotl(x, N, Turn(n - 1, N)), N);
    }
  }

  /** To the right it is the rest of the ring to the left. */
  lemma {:induction false} IterRorIs(x: nat, N: nat, n: nat)
    requires N > 0 && x < Pow2(N)
    ensures IterRor(x, N, n) == Rotl(x, N, N - Turn(n, N)) < Pow2(N)
    decreases n
  {
    hide Pow2, Rotl, RolStep, RorStep;
    RotlEnds(x, N);
    if n > 0 {
      IterRorIs(x, N, n - 1);
      var j := N - Turn(n - 1, N);
      RotlNext(x, N, j - 1);
      RolThenRor(Rotl(x, N, j - 1), N);
    }
  }

  lemma {:induction false} RotateUndone(x: nat, N: nat, n: nat)
    requires N > 0 && x < Pow2(N)
    ensures IterRor(IterRol(x, N, n), N, n) == x
    decreases n
  {
    if n > 0 {
      IterRolIs(x, N, n - 1);
      RolThenRor(IterRol(x, N, n - 1), N);
      RorShift(IterRol(x, N, n), N, n - 1);
      RotateUndone(x, N, n - 1);
    }
  }

  lemma {:induction false} RorShift(y: nat, N: nat, n: nat)
    requires N > 0
    ensures IterRor(y, N, n + 1) == IterRor(RorStep(y, N), N, n)
    decreases n
  {
    if n > 0 { RorShift(y, N, n - 1); }
  }

  /** The two shifts and a mask that make a rotate, in 64-bit arithmetic. */
  lemma TwoShifts(x: nat, N: nat, k: nat)
    requires 0 < k < N <= 64 && x < Pow2(N)
    ensures (x * Pow2(k) % Pow2(64) + x / Pow2(N - k)) % Pow2(N) == Rotl(x, N, k) < Pow2(N)
  {
    hide Pow2, RoundTheRing;
    CutTwice(x * Pow2(k), N, 64 - N);
    LowPart(x, k, N - k);
    RotlNext(x, N, k);
    TwoParts(x, Pow2(N - k), Pow2(k), Pow2(N), x * Pow2(k), x * Pow2(k) % Pow2(64));
  }

  lemma TwoParts(x: nat, cut: nat, p: nat, d: nat, y: nat, y': nat)
    requires cut > 0 && d > 0 && y' % d == y % d && y % d == x % cut * p && RoundTheRing(x, cut, p) < d
    ensures (y' + x / cut) % d == RoundTheRing(x, cut, p)
  {
    SumCut(y, y', x / cut, d);
  }

  lemma SumCut(y: nat, y': nat, z: nat, d: nat)
    requires d > 0 && y' % d == y % d && y % d + z < d
    ensures (y' + z) % d == y % d + z
  {
    Division.ModShift(y', z, d);
    Division.DivUnique(y % d + z, d, 0, y % d + z);
  }

  // ---- The carry as one more bit of the ring ----

  /** CF above the operand. */
  function Join(x: (nat, bool), w: nat): nat { x.0 + if x.1 then Pow2(w) else 0 }

  lemma {:induction false} StepsFit(op: ShiftOp, x: (nat, bool), w: nat, n: nat)
    requires w > 0 && x.0 < Pow2(w)
    ensures Steps(op, x, w, n).0 < Pow2(w)
    decreases n
  {
    if n > 0 {
      StepsFit(op, x, w, n - 1);
    }
  }

  lemma JoinStep(x: (nat, bool), w: nat)
    requires w > 0 && x.0 < Pow2(w)
    ensures Join(Step(Rcl, x, w), w) == RolStep(Join(x, w), w + 1)
    ensures Join(Step(Rcr, x, w), w) == RorStep(Join(x, w), w + 1)
  {
    hide Pow2;
    PowNext(w - 1);
    PowNext(w);
    Halves(x.0, Pow2(w - 1));
    Halves(Join(x, w), Pow2(w));
  }

  lemma {:induction false} JoinSteps(x: (nat, bool), w: nat, n: nat)
    requires w > 0 && x.0 < Pow2(w)
    ensures Join(Steps(Rcl, x, w, n), w) == IterRol(Join(x, w), w + 1, n)
    ensures Join(Steps(Rcr, x, w, n), w) == IterRor(Join(x, w), w + 1, n)
    decreases n
  {
    if n > 0 {
      JoinSteps(x, w, n - 1);
      StepsFit(Rcl, x, w, n - 1);
      StepsFit(Rcr, x, w, n - 1);
      JoinStep(Steps(Rcl, x, w, n - 1), w);
      JoinStep(Steps(Rcr, x, w, n - 1), w);
    }
  }

  /** RCR by `n` undoes RCL by `n`, on the operand and on CF. */
  lemma RcrUndoesRcl(v: nat, c: bool, w: nat, n: nat)
    requires w > 0 && v < Pow2(w)
    ensures Steps(Rcr, Steps(Rcl, (v, c), w, n), w, n) == (v, c)
  {
    hide Step;
    var x := Steps(Rcl, (v, c), w, n);
    StepsFit(Rcl, (v, c), w, n);
    StepsFit(Rcr, x, w, n);
    JoinSteps((v, c), w, n);
    JoinSteps(x, w, n);
    RotateUndone(Join((v, c), w), w + 1, n);
  }

  /** Rotates without the carry: the operand alone is the ring, and CF the bit
      that went round last. */
  lemma {:induction false} RingSteps(v: nat, c: bool, w: nat, n: nat)
    requires w > 0 && v < Pow2(w)
    ensures Steps(Rol, (v, c), w, n).0 == IterRol(v, w, n)
    ensures Steps(Ror, (v, c), w, n).0 == IterRor(v, w, n)
    ensures n > 0 ==> (Steps(Rol, (v, c), w, n).1 <==> IterRol(v, w, n) % 2 == 1)
    ensures n > 0 ==> (Steps(Ror, (v, c), w, n).1 <==> IterRor(v, w, n) >= Pow2(w - 1))
    decreases n
  {
    hide Pow2, Step, RolStep, RorStep;
    if n > 0 {
      RingSteps(v, c, w, n - 1);
      StepsFit(Rol, (v, c), w, n - 1);
      StepsFit(Ror, (v, c), w, n - 1);
      RingStep(Steps(Rol, (v, c), w, n - 1), w);
      RingStep(Steps(Ror, (v, c), w, n - 1), w);
    }
  }

  lemma RingStep(x: (nat, bool), w: nat)
    requires w > 0 && x.0 < Pow2(w)
    ensures var r := RolStep(x.0, w); Step(Rol, x, w) == (r, r % 2 == 1)
    ensures var r := RorStep(x.0, w); Step(Ror, x, w) == (r, r >= Pow2(w - 1))
  {
    hide Pow2;
    PowNext(w - 1);
  }

  // ---- The instruction ----

  /** Counts are masked to five bits, or six for 64-bit operands. */
  function Count(count: nat, n: Size): nat { if n == 8 then count % 64 else count % 32 }

  predicate SetsResultFlags(op: ShiftOp) { op == Shl || op == Shr || op == Sar }

  /** CF the last bit moved out; OF, for a count of one, whether the sign changed;
      SF, ZF and PF from the result of a shift. Rotates leave those three alone. */
  function ShiftFlags(f: Eflags, op: ShiftOp, v: nat, r: nat, cf: bool, count: nat, n: Size): Eflags {
    var g := SetFlag(f, CF, cf);
    var half := Modulus(n) / 2;
    SetFlag(if SetsResultFlags(op) then LogicFlags(g, r, n) else g, OF, count == 1 && (v >= half) != (r >= half))
  }

  /** The 64-bit operand and CF together are too wide for a host word, so the rotate goes
      bit by bit. It is the closed-form rotate with CF above the operand. */
  method RotateThroughCarry64(v: u64, carry: bool, k: nat, left: bool) returns (r: u64, cf: bool)
    requires k <= 65
    ensures var x := Steps(if left then Rcl else Rcr, (v, carry), 64, k); r == x.0 && cf == x.1
    ensures Join((r, cf), 64) == Rotl(Join((v, carry), 64), 65, if left then k else 65 - k)
  {
    hide Pow2, Rotl, Step, Join;
    r, cf := v, carry;
    for i := 0 to k
      invariant (r as nat, cf) == Steps(if left then Rcl else Rcr, (v, carry), 64, i)
    {
      Step64(r, cf);
      if left {
        var out := r / 0x8000_0000_0000_0000 != 0;
        r := Wrap64(r as int * 2) + if cf then 1 else 0;
        cf := out;
      } else {
        var out := r % 2 != 0;
        r := r / 2 + if cf then 0x8000_0000_0000_0000 else 0;
        cf := out;
      }
    }
    Joined64(v, carry, k);
  }

  lemma Step64(r: u64, cf: bool)
    ensures Wrap64(r as int * 2) + (if cf then 1 else 0) < TWO64
    ensures Step(Rcl, (r, cf), 64) == (Wrap64(r as int * 2) + (if cf then 1 else 0), r / 0x8000_0000_0000_0000 != 0)
    ensures Step(Rcr, (r, cf), 64) == (r / 2 + (if cf then 0x8000_0000_0000_0000 else 0), r % 2 != 0)
  {
    hide Pow2;
    PowBytes();
    PowNext(63);
  }

  lemma Joined64(v: u64, carry: bool, k: nat)
    requires k <= 65
    ensures Join(Steps(Rcl, (v, carry), 64, k), 64) == Rotl(Join((v, carry), 64), 65, k)
    ensures Join(Steps(Rcr, (v, carry), 64, k), 64) == Rotl(Join((v, carry), 64), 65, 65 - k)
  {
    hide Pow2, Rotl, Steps, IterRol, IterRor;
    PowBytes();
    PowNext(64);
    JoinSteps((v, carry), 64, k);
    RotlWhole(Join((v, carry), 64), 65, k);
  }

  lemma RotlWhole(x: nat, N: nat, k: nat)
    requires N > 0 && x < Pow2(N) && k <= N
    ensures IterRol(x, N, k) == Rotl(x, N, k) && IterRor(x, N, k) == Rotl(x, N, N - k)
  {
    hide Pow2, Rotl, IterRol, IterRor;
    IterRolIs(x, N, k);
    IterRorIs(x, N, k);
    RotlEnds(x, N);
    TurnIsMod(k, N);
    if k < N { Division.DivUnique(k, N, 0, k); } else { Division.DivUnique(k, N, 1, 0); }
  }

  // ---- The closed forms are the steps ----

  lemma ShlIs(v: u64, c: bool, n: Size, m: nat)
    requires v < Modulus(n) && 0 < m
    ensures Steps(Shl, (v, c), 8 * n, m)
            == (v * Pow2(m) % TWO64 % Modulus(n), m <= 8 * n && v / Pow2(8 * n - m) % 2 == 1)
  {
    hide Pow2, Steps, Modulus;
    Widths(n);
    ShlSteps(v, c, 8 * n, m);
    CutTwice(v * Pow2(m), 8 * n, 64 - 8 * n);
  }

  lemma ShrIs(v: u64, c: bool, n: Size, m: nat)
    requires v < Modulus(n) && 0 < m
    ensures Steps(Shr, (v, c), 8 * n, m)
            == (if m >= 8 * n then 0 else v / Pow2(m), m <= 8 * n && v / Pow2(m - 1) % 2 == 1)
  {
    hide Pow2, Steps, Modulus;
    Widths(n);
    ShrSteps(v, c, 8 * n, m);
    if m >= 8 * n { ShrOut(v, 8 * n, m); }
    if m - 1 >= 8 * n { ShrOut(v, 8 * n, m - 1); }
  }

  function Least(a: nat, b: nat): nat { if a < b then a else b }

  lemma SarIs(v: u64, c: bool, n: Size, m: nat)
    requires v < Modulus(n) && 0 < m
    ensures var w, s := 8 * n, SignOf(v, 8 * n);
            Steps(Sar, (v, c), w, m)
            == (s / Pow2(Least(m, w - 1)) % Modulus(n), s / Pow2(Least(m - 1, w - 1)) % 2 == 1)
  {
    hide Pow2, Steps, Modulus, SignOf;
    Widths(n);
    var w := 8 * n;
    SarSteps(v, c, w, m);
    if m >= w - 1 { SarOut(v, w, m); }
    if m - 1 >= w - 1 { SarOut(v, w, m - 1); }
    SignBack(Steps(Sar, (v, c), w, m).0, w);
  }

  /** The rotate of an `N`-bit ring by two shifts and a mask. */
  function Rotated(x: nat, N: nat, k: nat, left: bool): nat
    requires k < N
  {
    if k == 0 then x
    else if left then (x * Pow2(k) % TWO64 + x / Pow2(N - k)) % Pow2(N)
    else (x / Pow2(k) + x * Pow2(N - k) % TWO64) % Pow2(N)
  }

  lemma RotatedIs(x: nat, N: nat, m: nat)
    requires 0 < N <= 64 && x < Pow2(N)
    ensures Rotated(x, N, m % N, true) == IterRol(x, N, m) < Pow2(N)
    ensures Rotated(x, N, m % N, false) == IterRor(x, N, m) < Pow2(N)
  {
    hide Pow2, Rotl, IterRol, IterRor;
    var k := m % N;
    PowBytes();
    IterRolIs(x, N, m);
    IterRorIs(x, N, m);
    TurnIsMod(m, N);
    RotlEnds(x, N);
    if k > 0 {
      TwoShifts(x, N, k);
      TwoShifts(x, N, N - k);
    }
  }

  lemma RolIs(v: u64, c: bool, n: Size, m: nat, left: bool)
    requires v < Modulus(n) && 0 < m
    ensures var r := Rotated(v, 8 * n, m % (8 * n), left);
            && r < Modulus(n)
            && Steps(if left then Rol else Ror, (v, c), 8 * n, m)
               == (r, if left then r % 2 == 1 else r >= Modulus(n) / 2)
  {
    hide Pow2, Steps, Modulus, IterRol, IterRor, Rotated;
    Widths(n);
    RotatedIs(v, 8 * n, m);
    RingSteps(v, c, 8 * n, m);
  }

  lemma Unjoin(x: (nat, bool), w: nat)
    requires x.0 < Pow2(w)
    ensures Join(x, w) % Pow2(w) == x.0 && (Join(x, w) / Pow2(w) % 2 == 1 <==> x.1) && Join(x, w) < Pow2(w + 1)
  {
    hide Pow2;
    PowNext(w);
    Halves(Join(x, w), Pow2(w));
  }

  lemma RclIs(v: u64, c: bool, n: Size, m: nat, left: bool)
    requires v < Modulus(n) && n < 8
    ensures var w := 8 * n;
            var rot := Rotated(Join((v, c), w), w + 1, m % (w + 1), left);
            Steps(if left then Rcl else Rcr, (v, c), w, m) == (rot % Modulus(n), rot / Modulus(n) % 2 == 1)
  {
    hide Pow2, Steps, Modulus, IterRol, IterRor, Rotated, Join;
    Widths(n);
    var w, op := 8 * n, if left then Rcl else Rcr;
    Unjoin((v, c), w);
    RotatedIs(Join((v, c), w), w + 1, m);
    JoinSteps((v, c), w, m);
    StepsFit(op, (v, c), w, m);
    Unjoin(Steps(op, (v, c), w, m), w);
  }

  // ---- The overflow flag ----

  lemma FirstStep(op: ShiftOp, v: u64, c: bool, n: Size)
    requires v < Modulus(n)
    ensures Steps(op, (v, c), 8 * n, 1) == Step(op, (v, c), 8 * n)
    ensures var (r, cf), half := Step(op, (v, c), 8 * n), Modulus(n) / 2;
            && (op == Shl || op == Rol || op == Rcl ==> cf == (v >= half))
            && (op == Shr ==> r < half)
            && (op == Sar ==> (r >= half) == (v >= half))
            && (op == Ror || op == Rcr ==> (r / (half / 2) % 2 == 1 <==> v >= half))
  {
    hide Pow2, Modulus;
    assert Steps(op, (v, c), 8 * n, 0) == (v, c);
    Widths(n);
    FirstMove(op, v, c, 8 * n);
  }

  lemma FirstMove(op: ShiftOp, v: nat, c: bool, w: nat)
    requires w > 1 && v < Pow2(w)
    ensures var (r, cf), half := Step(op, (v, c), w), Pow2(w - 1);
            && (op == Shl || op == Rol || op == Rcl ==> cf == (v >= half))
            && (op == Shr ==> r < half)
            && (op == Sar ==> (r >= half) == (v >= half))
            && (op == Ror || op == Rcr ==> half / 2 > 0 && (r / (half / 2) % 2 == 1 <==> v >= half))
  {
    hide Pow2;
    PowNext(w - 1);
    PowNext(w - 2);
    if op == Ror { SecondBit(v, Pow2(w - 2), v % 2 == 1); }
    if op == Rcr { SecondBit(v, Pow2(w - 2), c); }
  }

  /** After a move to the right, with or without a new top bit, the old top bit
      is the second. */
  lemma SecondBit(v: nat, quarter: nat, high: bool)
    requires quarter > 0 && v < 4 * quarter
    ensures var r := v / 2 + (if high then 2 * quarter else 0); r / quarter % 2 == 1 <==> v >= 2 * quarter
  {
    var low := v / 2;
    var k := (if high then 2 else 0) + (if low >= quarter then 1 else 0);
    Division.DivUnique(low + (if high then 2 * quarter else 0), quarter, k,
                       if low >= quarter then low - quarter else low);
  }

  /** What each arm computes: the result, CF, and the OF of a count of one. */
  ghost predicate Moves(op: ShiftOp, v: u64, c: bool, n: Size, m: nat, r: u64, cf: bool, of: bool) {
    && (r as nat, cf) == Steps(op, (v, c), 8 * n, m)
    && (m == 1 ==> of == ((v >= Modulus(n) / 2) != (r >= Modulus(n) / 2)))
  }

  method ShiftArm(op: ShiftOp, v: u64, c: bool, n: Size, m: nat) returns (r: u64, cf: bool, of: bool)
    requires v < Modulus(n) && m > 0 && SetsResultFlags(op)
    ensures Moves(op, v, c, n, m, r, cf, of)
  {
    hide Pow2, Steps, Step, SignOf, Modulus;
    var w, half := 8 * n, Modulus(n) / 2;
    FirstStep(op, v, c, n);
    if op == Shl {
      ShlIs(v, c, n, m);
      r := v as int * Pow2(m) % TWO64 % Modulus(n);
      cf := m <= w && v / Pow2(w - m) % 2 == 1;
      of := (r >= half) != cf;
    } else if op == Shr {
      ShrIs(v, c, n, m);
      r := if m >= w then 0 else v / Pow2(m);
      cf := m <= w && v / Pow2(m - 1) % 2 == 1;
      of := v >= half;
    } else {
      SarIs(v, c, n, m);
      var s := SignOf(v, w);
      r := s / Pow2(Least(m, w - 1)) % Modulus(n);
      cf := s / Pow2(Least(m - 1, w - 1)) % 2 == 1;
      of := false;
    }
  }

  method RotateArm(left: bool, v: u64, c: bool, n: Size, m: nat) returns (r: u64, cf: bool, of: bool)
    requires v < Modulus(n) && m > 0
    ensures Moves(if left then Rol else Ror, v, c, n, m, r, cf, of)
  {
    hide Pow2, Steps, Step, Rotated, Modulus;
    var w, half := 8 * n, Modulus(n) / 2;
    FirstStep(if left then Rol else Ror, v, c, n);
    RolIs(v, c, n, m, left);
    r := Rotated(v, w, m % w, left);
    var second := r / (half / 2) % 2 == 1;
    cf := if left then r % 2 == 1 else r >= half;
    of := if left then (r >= half) != cf else cf != second;
  }

  method CarryArm(left: bool, v: u64, c: bool, n: Size, m: nat) returns (r: u64, cf: bool, of: bool)
    requires v < Modulus(n) && 0 < m < 64
    ensures Moves(if left then Rcl else Rcr, v, c, n, m, r, cf, of)
  {
    hide Pow2, Steps, Step, Rotated, Modulus, Join, Rotl;
    var w, half := 8 * n, Modulus(n) / 2;
    FirstStep(if left then Rcl else Rcr, v, c, n);
    if n == 8 {
      r, cf := RotateThroughCarry64(v, c, m % 65, left);
    } else {
      RclIs(v, c, n, m, left);
      var rot := Rotated(Join((v, c), w), w + 1, m % (w + 1), left);
      r, cf := rot % Modulus(n), rot / Modulus(n) % 2 == 1;
    }
    var second := r / (half / 2) % 2 == 1;
    of := (r >= half) != if left then cf else second;
  }

  /** One instruction for every width and operation: for any nonzero count it is
      that many single-bit steps, on the operand and on CF, with OF telling for a
      count of one whether the sign changed; for a zero count it is nothing. */
  method ShiftWidth(f: Eflags, op: ShiftOp, value: u64, count: nat, n: Size) returns (g: Eflags, r: u64)
    ensures Count(count, n) == 0 ==> g == f && r == value
    ensures Count(count, n) > 0 ==>
              var v, m := value % Modulus(n), Count(count, n);
              var x := Steps(op, (v, GetFlag(f, CF)), 8 * n, m);
              r == x.0 && g == ShiftFlags(f, op, v, r, x.1, m, n)
  {
    hide Steps, LogicFlags, Modulus;
    var m := Count(count, n);
    if m == 0 { return f, value; }
    var v, c := value % Modulus(n), GetFlag(f, CF);
    var cf, of;
    if SetsResultFlags(op) {
      r, cf, of := ShiftArm(op, v, c, n, m);
    } else if op == Rol || op == Ror {
      r, cf, of := RotateArm(op == Rol, v, c, n, m);
    } else {
      r, cf, of := CarryArm(op == Rcl, v, c, n, m);
    }
    g := SetFlag(f, CF, cf);
    if SetsResultFlags(op) { g := LogicFlags(g, r, n); }
    g := SetFlag(g, OF, m == 1 && of);
  }

  /** ... so RCR by any count undoes RCL by it, at every width: operand and CF. */
  lemma RcrRestores(v: u64, c: bool, n: Size, count: nat)
    requires v < Modulus(n)
    ensures Steps(Rcr, Steps(Rcl, (v, c), 8 * n, Count(count, n)), 8 * n, Count(count, n)) == (v, c)
  {
    hide Pow2, Steps, Modulus;
    Widths(n);
    RcrUndoesRcl(v, c, 8 * n, Count(count, n));
  }
}
