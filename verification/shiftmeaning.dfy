/** The flags of shifts and rotates, one by one. */
module ShiftMeaning {
  import opened Operands
  import opened Alu
  import opened AluMeaning
  import opened Shifts

  /** Counts are taken modulo 32, or 64 for 64-bit operands. A shift or rotate writes CF and
      OF, which for a count of one says that the sign changed and is clear otherwise; a
      shift also writes SF, ZF and PF from its result. No other flag changes. */
  lemma ShiftFlagsMean(f: Eflags, op: ShiftOp, v: nat, r: nat, carry: bool, count: nat, n: Size)
    ensures Count(count, n) == count % if n == 8 then 64 else 32
    ensures var g, m := ShiftFlags(f, op, v, r, carry, count, n), Modulus(n);
            && g[0] == carry && g[11] == (count == 1 && (2 * v >= m) != (2 * r >= m))
            && (if op == Shl || op == Shr || op == Sar then
                  g[6] == (r == 0) && g[7] == (2 * r >= m) && g[2] == (Ones(r % 0x100, 8) % 2 == 0)
                else g[6] == f[6] && g[7] == f[7] && g[2] == f[2])
            && forall i: FlagNo :: i != 0 && i != 2 && i != 6 && i != 7 && i != 11 ==> g[i] == f[i]
  {
    ParityMeans(r);
    HalfOf(v, n);
    HalfOf(r, n);
    hide Parity, Ones, Modulus;
  }

  lemma HalfOf(v: nat, n: Size)
    ensures v >= Modulus(n) / 2 <==> 2 * v >= Modulus(n)
  {
  }
}
