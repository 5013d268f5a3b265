/** The results and flags of the ALU, told as arithmetic and bit by bit. */
module AluMeaning {
  import opened Words
  import opened Operands
  import opened Alu
  import Division

  // ---- Bits of a number ----

  predicate OnBit(v: nat, i: nat) { if i == 0 then v % 2 == 1 else OnBit(v / 2, i - 1) }

  function Ones(v: nat, k: nat): nat {
    if k == 0 then 0 else (if v % 2 == 1 then 1 else 0) + Ones(v / 2, k - 1)
  }

  /** Bits of a byte, as a bit vector has them. */
  lemma ByteBits(x: nat)
    requires x < 0x100
    ensures var b := x as bv8;
            && (b & 1 == 1 <==> x % 2 == 1) && (b & 2 == 2 <==> x / 2 % 2 == 1) && (b & 4 == 4 <==> x / 4 % 2 == 1)
            && (b & 8 == 8 <==> x / 8 % 2 == 1) && (b & 16 == 16 <==> x / 16 % 2 == 1)
            && (b & 32 == 32 <==> x / 32 % 2 == 1) && (b & 64 == 64 <==> x / 64 % 2 == 1)
            && (b & 128 == 128 <==> x / 128 % 2 == 1)
  {
  }

  /** Folding a byte onto itself adds up its bits modulo 2. */
  lemma Fold(b: bv8)
    ensures var b1 := b ^ (b >> 4);
            var b2 := b1 ^ (b1 >> 2);
            var b3 := b2 ^ (b2 >> 1);
            var low := ((b & 1 == 1) != (b & 2 == 2)) != ((b & 4 == 4) != (b & 8 == 8));
            var high := ((b & 16 == 16) != (b & 32 == 32)) != ((b & 64 == 64) != (b & 128 == 128));
            b3 & 1 == 0 <==> low == high
  {
  }

  function One(on: bool): nat { if on then 1 else 0 }

  lemma OnesOfByte(x: nat)
    requires x < 0x100
    ensures Ones(x, 8) == One(x % 2 == 1) + One(x / 2 % 2 == 1) + One(x / 4 % 2 == 1) + One(x / 8 % 2 == 1)
                          + One(x / 16 % 2 == 1) + One(x / 32 % 2 == 1) + One(x / 64 % 2 == 1) + One(x / 128 % 2 == 1)
  {
    Division.DivDiv(x, 2, 2);
    Division.DivDiv(x, 4, 2);
    Division.DivDiv(x, 8, 2);
    Division.DivDiv(x, 16, 2);
    Division.DivDiv(x, 32, 2);
    Division.DivDiv(x, 64, 2);
    assert Ones(x / 128, 1) == One(x / 128 % 2 == 1) + Ones(x / 128 / 2, 0);
    assert Ones(x / 64, 2) == One(x / 64 % 2 == 1) + Ones(x / 128, 1);
    assert Ones(x / 32, 3) == One(x / 32 % 2 == 1) + Ones(x / 64, 2);
    assert Ones(x / 16, 4) == One(x / 16 % 2 == 1) + Ones(x / 32, 3);
    assert Ones(x / 8, 5) == One(x / 8 % 2 == 1) + Ones(x / 16, 4);
    assert Ones(x / 4, 6) == One(x / 4 % 2 == 1) + Ones(x / 8, 5);
    assert Ones(x / 2, 7) == One(x / 2 % 2 == 1) + Ones(x / 4, 6);
  }

  /** PF says that the low byte has an even number of ones. */
  lemma ParityMeans(v: nat)
    ensures Parity(v) <==> Ones(v % 0x100, 8) % 2 == 0
  {
    var x := v % 0x100;
    OnesOfByte(x);
    ByteBits(x);
    Fold(x as bv8);
    hide Ones;
    SumOfBits(x % 2 == 1, x / 2 % 2 == 1, x / 4 % 2 == 1, x / 8 % 2 == 1,
              x / 16 % 2 == 1, x / 32 % 2 == 1, x / 64 % 2 == 1, x / 128 % 2 == 1);
  }

  lemma SumOfBits(a: bool, b: bool, c: bool, d: bool, e: bool, f: bool, g: bool, h: bool)
    ensures (One(a) + One(b) + One(c) + One(d) + One(e) + One(f) + One(g) + One(h)) % 2 == 0
            <==> (((a != b) != (c != d)) == ((e != f) != (g != h)))
  {
    SumOfFour(a, b, c, d);
    SumOfFour(e, f, g, h);
  }

  lemma SumOfFour(a: bool, b: bool, c: bool, d: bool)
    ensures (One(a) + One(b) + One(c) + One(d)) % 2 == One((a != b) != (c != d))
  {
  }

  /** Bit `i` of a logic operation. */
  predicate Combined(op: AluOp, x: bool, y: bool) {
    (op == And && x && y) || (op == Or && (x || y)) || (op == Xor && x != y)
  }

  lemma {:induction false} BitwiseBit(op: AluOp, a: nat, b: nat, k: nat, i: nat)
    requires op == And || op == Or || op == Xor
    ensures OnBit(Bitwise(op, a, b, k), i) <==> i < k && Combined(op, OnBit(a, i), OnBit(b, i))
    decreases k
  {
    if k == 0 {
      ZeroBits(i);
    } else if i > 0 {
      BitwiseBit(op, a / 2, b / 2, k - 1, i - 1);
    }
  }

  lemma {:induction false} ZeroBits(i: nat)
    ensures !OnBit(0, i)
  {
    if i > 0 { ZeroBits(i - 1); }
  }

  // ---- Logic ----

  /** AND, OR and XOR work bit by bit, clear CF and OF, and leave AF and the flags that
      are not arithmetic alone. */
  lemma LogicMeans(f: Eflags, op: AluOp, a: u64, b: u64, n: Size)
    requires a < Modulus(n) && b < Modulus(n) && (op == And || op == Or || op == Xor)
    ensures var (g, r) := Compute(f, op, a, b, n);
            && (forall i: nat :: OnBit(r, i) <==> i < 8 * n && Combined(op, OnBit(a, i), OnBit(b, i)))
            && !g[0] && !g[11] && (g[6] <==> r == 0) && (g[7] <==> 2 * r >= Modulus(n))
            && (g[2] <==> Ones(r % 0x100, 8) % 2 == 0)
            && forall i: FlagNo :: i != 0 && i != 2 && i != 6 && i != 7 && i != 11 ==> g[i] == f[i]
  {
    hide Modulus, Bitwise, Parity, Ones, OnBit, Combined;
    var r := Compute(f, op, a, b, n).1;
    ParityMeans(r);
    forall i: nat ensures OnBit(r, i) <==> i < 8 * n && Combined(op, OnBit(a, i), OnBit(b, i)) {
      BitwiseBit(op, a, b, 8 * n, i);
    }
  }

  // ---- Arithmetic ----

  predicate Adds(op: AluOp) { op == Add || op == Adc }

  /** The carry an operation takes in. */
  function CarryIn(f: Eflags, op: AluOp): nat { if (op == Adc || op == Sbb) && f[0] then 1 else 0 }

  /** The sum or difference, of the operands or of any part or reading of them. */
  function Exact(op: AluOp, x: int, y: int, c: nat): int { if Adds(op) then x + y + c else x - y - c }

  /** The wrapped result, and whether it wrapped. */
  lemma Wrapped(op: AluOp, a: nat, b: nat, c: nat, m: nat)
    requires a < m && b < m && c < 2
    ensures var x := Exact(op, a, b, c);
            x % m == if x < 0 then x + m else if x >= m then x - m else x
  {
    var x := Exact(op, a, b, c);
    var r := if x < 0 then x + m else if x >= m then x - m else x;
    Division.DivUnique(x, m, if x < 0 then -1 else if x >= m then 1 else 0, r);
  }

  /** Which flag is written with what. */
  lemma FlagsWritten(f: Eflags, a: nat, b: nat, r: nat, carry: bool, overflow: bool, n: Size)
    ensures var g := CarryFlags(LogicFlags(f, r, n), a, b, r, carry, overflow);
            && g[0] == carry && g[6] == (r == 0) && g[7] == (2 * r >= Modulus(n)) && g[2] == Parity(r)
            && g[4] == NibbleCarry(a, b, r) && g[11] == overflow
            && forall i: FlagNo :: i != 0 && i != 2 && i != 4 && i != 6 && i != 7 && i != 11 ==> g[i] == f[i]
  {
    hide Modulus, Parity, NibbleCarry;
  }

  /** The carry out, by whatever test, is that the exact result does not fit. */
  lemma CarryMeans(f: Eflags, op: AluOp, a: u64, b: u64, n: Size)
    requires a < Modulus(n) && b < Modulus(n) && op != And && op != Or && op != Xor
    ensures var (g, r) := Compute(f, op, a, b, n);
            var x := Exact(op, a, b, CarryIn(f, op));
            && r == x % Modulus(n) && (g[0] <==> !(0 <= x < Modulus(n)))
            && (g[6] <==> r == 0) && (g[7] <==> 2 * r >= Modulus(n)) && (g[2] <==> Parity(r))
            && (g[4] <==> NibbleCarry(a, b, r))
            && (g[11] <==> if Adds(op) then AddOverflow(a, b, r, n) else SubOverflow(a, b, r, n))
            && forall i: FlagNo :: i != 0 && i != 2 && i != 4 && i != 6 && i != 7 && i != 11 ==> g[i] == f[i]
  {
    hide Modulus, Parity, NibbleCarry, AddOverflow, SubOverflow, CarryFlags, LogicFlags, AdcCarry, SbbBorrow;
    var c, m := CarryIn(f, op), Modulus(n);
    var r := Exact(op, a, b, c) % m;
    Wrapped(op, a, b, c, m);
    match op
    case Add => FlagsWritten(f, a, b, r, a + b >= m, AddOverflow(a, b, r, n), n);
    case Adc =>
      CarryTests(a, b, c, n);
      FlagsWritten(f, a, b, r, AdcCarry(a, b, c, r, n), AddOverflow(a, b, r, n), n);
    case Sub => FlagsWritten(f, a, b, r, a < b, SubOverflow(a, b, r, n), n);
    case Cmp => FlagsWritten(f, a, b, r, a < b, SubOverflow(a, b, r, n), n);
    case Sbb =>
      CarryTests(a, b, c, n);
      FlagsWritten(f, a, b, r, SbbBorrow(a, b, c, n), SubOverflow(a, b, r, n), n);
  }

  /** The tests at 64 bits, which have no wider type, are those of the other widths. */
  lemma CarryTests(a: nat, b: nat, c: nat, n: Size)
    requires a < Modulus(n) && b < Modulus(n) && c < 2
    ensures AdcCarry(a, b, c, (a + b + c) % Modulus(n), n) <==> a + b + c >= Modulus(n)
    ensures SbbBorrow(a, b, c, n) <==> a < b + c
  {
    Wrapped(Adc, a, b, c, Modulus(n));
    if n == 8 { WidestModulus(); }
    hide Modulus;
  }

  lemma WidestModulus()
    ensures Modulus(8) == TWO64
  {
  }

  /** The carry between nibbles is that of the low nibbles, wherever the result wraps. */
  lemma NibbleMeans(op: AluOp, a: nat, b: nat, c: nat, k: int, r: nat)
    requires c < 2 && k % 2 == 0 && r == Exact(op, a, b, c) + 16 * k
    ensures NibbleCarry(a, b, r) <==> !(0 <= Exact(op, a % 16, b % 16, c) < 16)
  {
    var low := Exact(op, a % 16, b % 16, c);
    var nib := if low < 0 then -1 else if low >= 16 then 1 else 0;
    var q := (if Adds(op) then a / 16 + b / 16 else a / 16 - b / 16) + nib + k;
    Division.DivUnique(r, 16, q, low - 16 * nib);
    EvenOdd(a / 16, b / 16, q, nib, k, Adds(op));
  }

  lemma Nibbles(n: Size)
    ensures Modulus(n) == 16 * (Modulus(n) / 16) && Modulus(n) / 16 % 2 == 0
  {
  }

  lemma EvenOdd(x: int, y: int, q: int, nib: int, k: int, adds: bool)
    requires k % 2 == 0 && -1 <= nib <= 1 && q == (if adds then x + y else x - y) + nib + k
    ensures (x + y + q) % 2 == 1 <==> nib != 0
  {
    assert x + y + q == 2 * (if adds then x + y else x) + nib + k;
  }

  /** OF says that the signed result does not fit; at 8 bits it is always clear. */
  lemma OverflowMeans(op: AluOp, a: nat, b: nat, c: nat, n: Size, r: nat)
    requires a < Modulus(n) && b < Modulus(n) && c < 2 && r == Exact(op, a, b, c) % Modulus(n)
    ensures (if Adds(op) then AddOverflow(a, b, r, n) else SubOverflow(a, b, r, n))
            <==> n != 1 && !(-(Modulus(n) / 2) <= Exact(op, Signed(a, n), Signed(b, n), c) < Modulus(n) / 2)
  {
    Wrapped(op, a, b, c, Modulus(n));
    hide Modulus;
  }

  /** ADD, ADC, SUB, SBB and CMP, at every width. The result is the exact sum or
      difference, carry taken in, modulo the width; CF says that it did not fit, OF that
      the signed one did not, AF that the one of the low four bits did not. */
  lemma ArithmeticMeans(f: Eflags, op: AluOp, a: u64, b: u64, n: Size)
    requires a < Modulus(n) && b < Modulus(n) && op != And && op != Or && op != Xor
    ensures var (g, r) := Compute(f, op, a, b, n);
            var c, m := CarryIn(f, op), Modulus(n);
            var x := Exact(op, a, b, c);
            && r == x % m && (g[0] <==> !(0 <= x < m)) && (g[6] <==> r == 0) && (g[7] <==> 2 * r >= m)
            && (g[11] <==> n != 1 && !(-(m / 2) <= Exact(op, Signed(a, n), Signed(b, n), c) < m / 2))
            && (g[4] <==> !(0 <= Exact(op, a % 16, b % 16, c) < 16))
            && (g[2] <==> Ones(r % 0x100, 8) % 2 == 0)
            && forall i: FlagNo :: i != 0 && i != 2 && i != 4 && i != 6 && i != 7 && i != 11 ==> g[i] == f[i]
  {
    hide Modulus, Parity, NibbleCarry, AddOverflow, SubOverflow, Ones, Signed, Compute;
    CarryMeans(f, op, a, b, n);
    var r := Compute(f, op, a, b, n).1;
    Nibbles(n);
    var x, h := Exact(op, a, b, CarryIn(f, op)), Modulus(n) / 16;
    Wrapped(op, a, b, CarryIn(f, op), Modulus(n));
    NibbleMeans(op, a, b, CarryIn(f, op), if x < 0 then h else if x >= Modulus(n) then -h else 0, r);
    OverflowMeans(op, a, b, CarryIn(f, op), n, r);
    ParityMeans(r);
  }

  /** The conditions that name a flag, and every other as the opposite of its neighbour. */
  lemma ConditionsMean(f: Eflags)
    ensures Test(O, f) == f[11] && Test(S, f) == f[7] && Test(P, f) == f[2]
    ensures Test(No, f) == !Test(O, f) && Test(Ns, f) == !Test(S, f) && Test(Np, f) == !Test(P, f)
    ensures Test(Nb, f) == !Test(B, f) && Test(Ne, f) == !Test(E, f) && Test(Nbe, f) == !Test(Be, f)
    ensures Test(Nl, f) == !Test(L, f) && Test(Nle, f) == !Test(Le, f)
  {
  }
}
