/** The integer ALU: results, and the flags that later instructions test. */
module Alu {
  import opened Words
  import opened Operands
  import Division

  /** EFLAGS, bit by bit. */
  type Eflags = f: seq<bool> | |f| == 32 witness seq(32, _ => false)
  type FlagNo = i: nat | i < 32

  const CF: FlagNo := 0
  const PF: FlagNo := 2
  const AF: FlagNo := 4
  const ZF: FlagNo := 6
  const SF: FlagNo := 7
  const TF: FlagNo := 8
  const IF: FlagNo := 9
  const DF: FlagNo := 10
  const OF: FlagNo := 11
  const RF: FlagNo := 16

  function SetFlag(f: Eflags, i: FlagNo, on: bool): Eflags { f[i := on] }
  predicate GetFlag(f: Eflags, i: FlagNo) { f[i] }

  datatype AluOp = Add | Adc | Sub | Sbb | And | Or | Xor | Cmp

  /** The number of values of an `n`-byte operand. */
  function Modulus(n: Size): (m: nat)
    ensures m == 0x100 || m == 0x1_0000 || m == TWO32 || m == TWO64
    ensures m % 2 == 0 && m == ByteRange(n)
  {
    ByteRanges();
    if n == 1 then 0x100 else if n == 2 then 0x1_0000 else if n == 4 then TWO32 else TWO64
  }

  predicate Parity(v: nat) {
    var b := (v % 0x100) as bv8;
    var b1 := b ^ (b >> 4);
    var b2 := b1 ^ (b1 >> 2);
    var b3 := b2 ^ (b2 >> 1);
    b3 & 1 == 0
  }

  /** Bit 4 of `a ^ b ^ r`: the carry between nibbles. */
  predicate NibbleCarry(a: nat, b: nat, r: nat) { (a / 16 + b / 16 + r / 16) % 2 == 1 }

  /** The bit the overflow formulas look at. The 8-bit operations share the
      16-bit helper and test bit 15, which an 8-bit value never has. */
  predicate OverflowBit(x: nat, n: Size) { n != 1 && x >= Modulus(n) / 2 }

  function LogicFlags(f: Eflags, r: nat, n: Size): Eflags {
    SetFlag(SetFlag(SetFlag(f, SF, r >= Modulus(n) / 2), ZF, r == 0), PF, Parity(r))
  }

  function CarryFlags(f: Eflags, a: nat, b: nat, r: nat, carry: bool, overflow: bool): Eflags {
    SetFlag(SetFlag(SetFlag(f, CF, carry), AF, NibbleCarry(a, b, r)), OF, overflow)
  }

  predicate AddOverflow(a: nat, b: nat, r: nat, n: Size) {
    OverflowBit(a, n) != OverflowBit(r, n) && OverflowBit(b, n) != OverflowBit(r, n)
  }

  predicate SubOverflow(a: nat, b: nat, r: nat, n: Size) {
    OverflowBit(a, n) != OverflowBit(b, n) && OverflowBit(a, n) != OverflowBit(r, n)
  }

  /** The low `k` bits of a logic operation, least significant first. */
  function Bitwise(op: AluOp, a: nat, b: nat, k: nat): (r: nat) {
    if k == 0 then 0
    else
      var x, y := a % 2 == 1, b % 2 == 1;
      var bit := if op == And then x && y else if op == Or then x || y else x != y;
      (if bit then 1 else 0) + 2 * Bitwise(op, a / 2, b / 2, k - 1)
  }

  lemma {:induction false} BitwiseFits(op: AluOp, a: nat, b: nat, n: nat)
    ensures Bitwise(op, a, b, 8 * n) < ByteRange(n)
  {
    if n > 0 {
      BitwiseFits(op, a / 2 / 2 / 2 / 2 / 2 / 2 / 2 / 2, b / 2 / 2 / 2 / 2 / 2 / 2 / 2 / 2, n - 1);
      ByteOfBits(op, a, b, 8 * (n - 1));
    }
  }

  lemma ByteOfBits(op: AluOp, a: nat, b: nat, k: nat)
    ensures Bitwise(op, a, b, k + 8)
         <= 0xFF + 0x100 * Bitwise(op, a / 2 / 2 / 2 / 2 / 2 / 2 / 2 / 2, b / 2 / 2 / 2 / 2 / 2 / 2 / 2 / 2, k)
  {
    var a2, b2 := a / 2 / 2, b / 2 / 2;
    var a4, b4 := a2 / 2 / 2, b2 / 2 / 2;
    var a6, b6 := a4 / 2 / 2, b4 / 2 / 2;
    TwoBits(op, a, b, k + 6);
    TwoBits(op, a2, b2, k + 4);
    TwoBits(op, a4, b4, k + 2);
    TwoBits(op, a6, b6, k);
  }

  lemma TwoBits(op: AluOp, a: nat, b: nat, k: nat)
    ensures Bitwise(op, a, b, k + 2) <= 3 + 4 * Bitwise(op, a / 2 / 2, b / 2 / 2, k)
  {
    assert Bitwise(op, a, b, k + 2) <= 1 + 2 * Bitwise(op, a / 2, b / 2, k + 1);
    assert Bitwise(op, a / 2, b / 2, k + 1) <= 1 + 2 * Bitwise(op, a / 2 / 2, b / 2 / 2, k);
  }

  function Logic(f: Eflags, r: nat, n: Size): Eflags {
    SetFlag(SetFlag(LogicFlags(f, r, n), CF, false), OF, false)
  }

  /** The carry out of an add-with-carry. Narrow widths widen; at 64 bits there
      is nothing wider, so it is read off the wrapped result. */
  predicate AdcCarry(a: nat, b: nat, cin: nat, r: nat, n: Size) {
    if n == 8 then r < a || (cin == 1 && r == a) else a + b + cin >= Modulus(n)
  }

  predicate SbbBorrow(a: nat, b: nat, cin: nat, n: Size) {
    if n == 8 then a < b || (a == b && cin == 1) else a < b + cin
  }

  /** An ALU operation on `n`-byte operands: the new flags and the result. */
  function Compute(f: Eflags, op: AluOp, a: u64, b: u64, n: Size): (Eflags, u64)
    requires a < Modulus(n) && b < Modulus(n)
  {
    var cin := if GetFlag(f, CF) then 1 else 0;
    match op
    case Add =>
      var r := (a + b) % Modulus(n);
      (CarryFlags(LogicFlags(f, r, n), a, b, r, a + b >= Modulus(n), AddOverflow(a, b, r, n)), r)
    case Adc =>
      var r := (a + b + cin) % Modulus(n);
      (CarryFlags(LogicFlags(f, r, n), a, b, r, AdcCarry(a, b, cin, r, n), AddOverflow(a, b, r, n)), r)
    case Sub =>
      var r := (a - b) % Modulus(n);
      (CarryFlags(LogicFlags(f, r, n), a, b, r, a < b, SubOverflow(a, b, r, n)), r)
    case Cmp =>
      var r := (a - b) % Modulus(n);
      (CarryFlags(LogicFlags(f, r, n), a, b, r, a < b, SubOverflow(a, b, r, n)), r)
    case Sbb =>
      var r := (a - b - cin) % Modulus(n);
      (CarryFlags(LogicFlags(f, r, n), a, b, r, SbbBorrow(a, b, cin, n), SubOverflow(a, b, r, n)), r)
    case And => BitwiseFits(And, a, b, n); var r := Bitwise(And, a, b, 8 * n); (Logic(f, r, n), r)
    case Or => BitwiseFits(Or, a, b, n); var r := Bitwise(Or, a, b, 8 * n); (Logic(f, r, n), r)
    case Xor => BitwiseFits(Xor, a, b, n); var r := Bitwise(Xor, a, b, 8 * n); (Logic(f, r, n), r)
  }

  lemma ComputeFits(f: Eflags, op: AluOp, a: u64, b: u64, n: Size)
    requires a < Modulus(n) && b < Modulus(n)
    ensures Compute(f, op, a, b, n).1 < Modulus(n)
  {
    hide CarryFlags, LogicFlags, Logic, Bitwise, AddOverflow, SubOverflow, GetFlag, AdcCarry, SbbBorrow;
    match op {
      case And => BitwiseFits(And, a, b, n);
      case Or => BitwiseFits(Or, a, b, n);
      case Xor => BitwiseFits(Xor, a, b, n);
      case _ =>
    }
  }

  // ---- What the flags hold afterwards ----

  /** The flags an operation writes whatever they were: arithmetic CF, PF, AF,
      ZF, SF and OF, logic all of them but AF. */
  predicate Overwrites(op: AluOp, i: FlagNo) {
    i == CF || i == PF || i == ZF || i == SF || i == OF || (i == AF && op != And && op != Or && op != Xor)
  }

  /** `f` and `g` agree on every flag `op` leaves alone. */
  ghost predicate AgreeBut(f: Eflags, g: Eflags, op: AluOp) {
    forall i: FlagNo :: !Overwrites(op, i) ==> f[i] == g[i]
  }

  lemma LogicOverwrites(f: Eflags, g: Eflags, r: nat, n: Size)
    requires AgreeBut(f, g, And)
    ensures Logic(f, r, n) == Logic(g, r, n)
    ensures AgreeBut(Logic(f, r, n), f, And)
  {
    hide Modulus, Parity;
    forall i: FlagNo
      ensures Logic(f, r, n)[i] == Logic(g, r, n)[i]
    {
    }
  }

  lemma CarryOverwrites(f: Eflags, g: Eflags, a: nat, b: nat, r: nat, c: bool, o: bool, n: Size)
    requires AgreeBut(f, g, Add)
    ensures CarryFlags(LogicFlags(f, r, n), a, b, r, c, o) == CarryFlags(LogicFlags(g, r, n), a, b, r, c, o)
    ensures AgreeBut(CarryFlags(LogicFlags(f, r, n), a, b, r, c, o), f, Add)
  {
    hide Modulus, Parity, NibbleCarry;
    var f', g' := CarryFlags(LogicFlags(f, r, n), a, b, r, c, o), CarryFlags(LogicFlags(g, r, n), a, b, r, c, o);
    forall i: FlagNo
      ensures f'[i] == g'[i]
    {
    }
  }

  /** Nothing but ADC and SBB reads the flags: what an operation leaves depends on
      the old flags only where it does not write. */
  lemma ComputeOverwrites(f: Eflags, g: Eflags, op: AluOp, a: u64, b: u64, n: Size)
    requires a < Modulus(n) && b < Modulus(n) && op != Adc && op != Sbb
    requires AgreeBut(f, g, op)
    ensures Compute(f, op, a, b, n) == Compute(g, op, a, b, n)
    ensures AgreeBut(Compute(f, op, a, b, n).0, f, op)
  {
    hide Modulus, CarryFlags, LogicFlags, Logic, Bitwise, AddOverflow, SubOverflow, GetFlag,
      AdcCarry, SbbBorrow;
    var sum, dif := (a + b) % Modulus(n), (a - b) % Modulus(n);
    match op
    case Add => CarryOverwrites(f, g, a, b, sum, a + b >= Modulus(n), AddOverflow(a, b, sum, n), n);
    case Sub => CarryOverwrites(f, g, a, b, dif, a < b, SubOverflow(a, b, dif, n), n);
    case Cmp => CarryOverwrites(f, g, a, b, dif, a < b, SubOverflow(a, b, dif, n), n);
    case And => LogicOverwrites(f, g, Bitwise(And, a, b, 8 * n), n);
    case Or => LogicOverwrites(f, g, Bitwise(Or, a, b, 8 * n), n);
    case Xor => LogicOverwrites(f, g, Bitwise(Xor, a, b, 8 * n), n);
  }

  lemma FlagsRead(f: Eflags, a: nat, b: nat, r: nat, c: bool, o: bool, n: Size)
    ensures var g := CarryFlags(LogicFlags(f, r, n), a, b, r, c, o);
            && (GetFlag(g, CF) <==> c) && (GetFlag(g, OF) <==> o)
            && (GetFlag(g, ZF) <==> r == 0) && (GetFlag(g, SF) <==> r >= Modulus(n) / 2)
  {
    hide Modulus, Parity, NibbleCarry;
  }

  // ---- Conditions ----

  datatype Cond = O | No | B | Nb | E | Ne | Be | Nbe | S | Ns | P | Np | L | Nl | Le | Nle

  predicate Test(cond: Cond, f: Eflags) {
    match cond
    case O => GetFlag(f, OF)
    case No => !GetFlag(f, OF)
    case B => GetFlag(f, CF)
    case Nb => !GetFlag(f, CF)
    case E => GetFlag(f, ZF)
    case Ne => !GetFlag(f, ZF)
    case Be => GetFlag(f, CF) || GetFlag(f, ZF)
    case Nbe => !GetFlag(f, CF) && !GetFlag(f, ZF)
    case S => GetFlag(f, SF)
    case Ns => !GetFlag(f, SF)
    case P => GetFlag(f, PF)
    case Np => !GetFlag(f, PF)
    case L => GetFlag(f, SF) != GetFlag(f, OF)
    case Nl => GetFlag(f, SF) == GetFlag(f, OF)
    case Le => GetFlag(f, ZF) || GetFlag(f, SF) != GetFlag(f, OF)
    case Nle => !GetFlag(f, ZF) && GetFlag(f, SF) == GetFlag(f, OF)
  }

  /** An `n`-byte value read as two's complement. */
  function Signed(a: nat, n: Size): int { if a >= Modulus(n) / 2 then a - Modulus(n) else a }

  /** The ordering a condition names, or None where it names none. */
  function Ordering(cond: Cond, a: nat, b: nat, n: Size): Option<bool> {
    match cond
    case B => Some(a < b)
    case Nb => Some(a >= b)
    case E => Some(a == b)
    case Ne => Some(a != b)
    case Be => Some(a <= b)
    case Nbe => Some(a > b)
    case L => Some(Signed(a, n) < Signed(b, n))
    case Nl => Some(Signed(a, n) >= Signed(b, n))
    case Le => Some(Signed(a, n) <= Signed(b, n))
    case Nle => Some(Signed(a, n) > Signed(b, n))
    case _ => None
  }

  /** Which conditions compare as signed. */
  predicate IsSigned(cond: Cond) { cond == L || cond == Nl || cond == Le || cond == Nle }

  /** The difference fits: comparing it needs no overflow flag. */
  predicate Fits(a: nat, b: nat, n: Size) {
    -(Modulus(n) / 2) <= Signed(a, n) - Signed(b, n) < Modulus(n) / 2
  }

  /** The facts about a wrapped difference that the conditions rest on. */
  lemma Difference(a: nat, b: nat, m: nat)
    requires m % 2 == 0 && a < m && b < m
    ensures var r := (a - b) % m;
            && r == (if a < b then a - b + m else a - b)
            && (r == 0 <==> a == b)
  {
    if a < b {
      Division.DivUnique(a - b, m, -1, a - b + m);
    } else {
      Division.DivUnique(a - b, m, 0, a - b);
    }
  }

  /** CMP then any of the ten ordering conditions decides exactly that ordering,
      unsigned and signed, at 16, 32 and 64 bits. At 8 bits the signed ones
      decide it exactly when the difference fits in eight bits, because OF is
      always clear there. */
  lemma CompareDecides(f: Eflags, cond: Cond, a: u64, b: u64, n: Size)
    requires a < Modulus(n) && b < Modulus(n) && Ordering(cond, a, b, n).Some?
    ensures Test(cond, Compute(f, Cmp, a, b, n).0) == Ordering(cond, a, b, n).value
            <==> (n != 1 || !IsSigned(cond) || Fits(a, b, n))
  {
    hide CarryFlags, LogicFlags, GetFlag, Modulus, NibbleCarry, SubOverflow, Signed, Fits;
    var m := Modulus(n);
    var r := (a - b) % m;
    Difference(a, b, m);
    FlagsRead(f, a, b, r, a < b, SubOverflow(a, b, r, n), n);
    if IsSigned(cond) { SignedBelow(a, b, r, n); }
  }

  /** SF and OF differ exactly when the signed order says so. */
  lemma SignedBelow(a: nat, b: nat, r: nat, n: Size)
    requires a < Modulus(n) && b < Modulus(n) && r == if a < b then a - b + Modulus(n) else a - b
    ensures ((r >= Modulus(n) / 2) != SubOverflow(a, b, r, n) <==> Signed(a, n) < Signed(b, n))
            <==> (n != 1 || Fits(a, b, n))
    ensures (Signed(a, n) == Signed(b, n) <==> a == b) && (a == b ==> Fits(a, b, n))
  {
  }

  // ---- Multi-precision chains ----

  const LIMB: Size := 8

  function Value(limbs: seq<u64>): nat {
    if limbs == [] then 0 else limbs[0] + TWO64 * Value(limbs[1..])
  }

  function LimbRange(k: nat): (p: nat)
    ensures p > 0
  {
    if k == 0 then 1 else TWO64 * LimbRange(k - 1)
  }

  /** Limb by limb, least significant first, carrying through CF. */
  function Chain(f: Eflags, op: AluOp, a: seq<u64>, b: seq<u64>): (r: (Eflags, seq<u64>))
    requires |a| == |b|
    ensures |r.1| == |a|
    decreases |a|
  {
    if a == [] then (f, [])
    else
      var (f1, limb) := Compute(f, op, a[0], b[0], LIMB);
      var (f2, rest) := Chain(f1, op, a[1..], b[1..]);
      (f2, [limb] + rest)
  }

  /** ADD on the lowest limb, ADC on the others (SUB and SBB likewise). */
  function MultiPrecision(f: Eflags, first: AluOp, others: AluOp, a: seq<u64>, b: seq<u64>): (r: (Eflags, seq<u64>))
    requires |a| == |b| > 0
    ensures |r.1| == |a|
  {
    var (f1, limb) := Compute(f, first, a[0], b[0], LIMB);
    var (f2, rest) := Chain(f1, others, a[1..], b[1..]);
    (f2, [limb] + rest)
  }

  function Carry(f: Eflags): nat { if GetFlag(f, CF) then 1 else 0 }

  /** The carry found without a wider type is the true carry. */
  lemma AdcExact(f: Eflags, a: u64, b: u64)
    ensures var (g, r) := Compute(f, Adc, a, b, LIMB);
            a + b + Carry(f) == r + TWO64 * Carry(g)
  {
    hide CarryFlags, LogicFlags, GetFlag, NibbleCarry;
    var cin := Carry(f);
    var r := (a + b + cin) % TWO64;
    FlagsRead(f, a, b, r, AdcCarry(a, b, cin, r, LIMB), AddOverflow(a, b, r, LIMB), LIMB);
  }

  lemma SbbExact(f: Eflags, a: u64, b: u64)
    ensures var (g, r) := Compute(f, Sbb, a, b, LIMB);
            a - b - Carry(f) == r - TWO64 * Carry(g)
  {
    hide CarryFlags, LogicFlags, GetFlag, NibbleCarry;
    var cin := Carry(f);
    var r := (a - b - cin) % TWO64;
    FlagsRead(f, a, b, r, SbbBorrow(a, b, cin, LIMB), SubOverflow(a, b, r, LIMB), LIMB);
    if a - b - cin < 0 {
      assert (a - b - cin + TWO64) % TWO64 == a - b - cin + TWO64;
    }
  }

  lemma FirstLimbExact(f: Eflags, a: u64, b: u64)
    ensures var (g, r) := Compute(f, Add, a, b, LIMB); a + b == r + TWO64 * Carry(g)
    ensures var (g, r) := Compute(f, Sub, a, b, LIMB); a - b == r - TWO64 * Carry(g)
  {
    hide CarryFlags, LogicFlags, GetFlag, NibbleCarry;
    var s, d := (a + b) % TWO64, (a - b) % TWO64;
    FlagsRead(f, a, b, s, a + b >= TWO64, AddOverflow(a, b, s, LIMB), LIMB);
    FlagsRead(f, a, b, d, a < b, SubOverflow(a, b, d, LIMB), LIMB);
    Difference(a, b, TWO64);
  }

  /** `carry` is worth 1 in the next limb: one step of the ripple. */
  lemma Ripple(a0: int, b0: int, r0: int, cin: int, mid: int, va: int, vb: int, vr: int, p: int, out: int, sign: int)
    requires a0 + sign * b0 + sign * cin == r0 + sign * (TWO64 * mid)
    requires va + sign * vb + sign * mid == vr + sign * (p * out)
    requires sign == 1 || sign == -1
    ensures (a0 + TWO64 * va) + sign * (b0 + TWO64 * vb) + sign * cin
            == (r0 + TWO64 * vr) + sign * ((TWO64 * p) * out)
  {
    assert (TWO64 * p) * out == TWO64 * (p * out);
  }

  lemma {:induction false} AdcChainExact(f: Eflags, a: seq<u64>, b: seq<u64>)
    requires |a| == |b|
    ensures var (g, r) := Chain(f, Adc, a, b);
            Value(a) + Value(b) + Carry(f) == Value(r) + LimbRange(|a|) * Carry(g)
    decreases |a|
  {
    hide Compute, Carry;
    if a != [] {
      var (f1, limb) := Compute(f, Adc, a[0], b[0], LIMB);
      var (g, rest) := Chain(f1, Adc, a[1..], b[1..]);
      AdcExact(f, a[0], b[0]);
      AdcChainExact(f1, a[1..], b[1..]);
      assert ([limb] + rest)[1..] == rest;
      Ripple(a[0], b[0], limb, Carry(f), Carry(f1), Value(a[1..]), Value(b[1..]), Value(rest),
             LimbRange(|a| - 1), Carry(g), 1);
    }
  }

  lemma {:induction false} SbbChainExact(f: Eflags, a: seq<u64>, b: seq<u64>)
    requires |a| == |b|
    ensures var (g, r) := Chain(f, Sbb, a, b);
            Value(a) - Value(b) - Carry(f) == Value(r) - LimbRange(|a|) * Carry(g)
    decreases |a|
  {
    hide Compute, Carry;
    if a != [] {
      var (f1, limb) := Compute(f, Sbb, a[0], b[0], LIMB);
      var (g, rest) := Chain(f1, Sbb, a[1..], b[1..]);
      SbbExact(f, a[0], b[0]);
      SbbChainExact(f1, a[1..], b[1..]);
      assert ([limb] + rest)[1..] == rest;
      Ripple(a[0], b[0], limb, Carry(f), Carry(f1), Value(a[1..]), Value(b[1..]), Value(rest),
             LimbRange(|a| - 1), Carry(g), -1);
    }
  }

  /** For any number of 64-bit limbs, ADD then ADCs compute the exact sum with CF
      its carry, and SUB then SBBs the exact difference with CF its borrow. */
  lemma MultiPrecisionExact(f: Eflags, a: seq<u64>, b: seq<u64>)
    requires |a| == |b| > 0
    ensures var (g, r) := MultiPrecision(f, Add, Adc, a, b);
            Value(a) + Value(b) == Value(r) + LimbRange(|a|) * Carry(g)
    ensures var (g, r) := MultiPrecision(f, Sub, Sbb, a, b);
            Value(a) - Value(b) == Value(r) - LimbRange(|a|) * Carry(g)
  {
    hide Compute, Carry;
    FirstLimbExact(f, a[0], b[0]);
    var va, vb, p := Value(a[1..]), Value(b[1..]), LimbRange(|a| - 1);
    var (f1, s) := Compute(f, Add, a[0], b[0], LIMB);
    var (g, rest) := Chain(f1, Adc, a[1..], b[1..]);
    AdcChainExact(f1, a[1..], b[1..]);
    assert ([s] + rest)[1..] == rest;
    Ripple(a[0], b[0], s, 0, Carry(f1), va, vb, Value(rest), p, Carry(g), 1);
    var (f2, d) := Compute(f, Sub, a[0], b[0], LIMB);
    var (h, rest') := Chain(f2, Sbb, a[1..], b[1..]);
    SbbChainExact(f2, a[1..], b[1..]);
    assert ([d] + rest')[1..] == rest';
    Ripple(a[0], b[0], d, 0, Carry(f2), va, vb, Value(rest'), p, Carry(h), -1);
  }
}
