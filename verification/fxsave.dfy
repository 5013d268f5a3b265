/** FXSAVE and FXRSTOR: the floating-point and vector state as a 512-byte image. */
module Fxsave {
  import opened Words
  import opened Memory
  import opened Mmu
  import opened Shifts
  import opened Extended
  import Division

  type u128 = x: int | 0 <= x < 0x1_0000_0000_0000_0000_0000_0000_0000_0000

  const IMAGE_SIZE: nat := 512
  /** The MXCSR bits this processor implements. */
  const MXCSR_MASK: nat := 0xFFFF

  /** `st` holds bit patterns of doubles, by physical register; `top` names ST(0). */
  datatype Simd = Simd(control: u16, status: u16, tag: u16, top: nat, st: seq<u64>,
                       mxcsr: u32, xmm: seq<u128>, long: bool, pending: Option<Fault>) {
    predicate Valid() { top < 8 && |st| == 8 && |xmm| == 16 }
  }

  // ---- Cells of a buffer ----

  lemma {:induction false} SetFrame(d: seq<u8>, i: nat, n: nat, v: nat, k: nat)
    requires i + n <= |d| && k < |d| && (k < i || i + n <= k)
    ensures SetCells(d, i, n, v)[k] == d[k]
    decreases n
  {
    if n > 0 { SetFrame(d[i := v % 256], i + 1, n - 1, v / 256, k); }
  }

  lemma {:induction false} SetThenCells(d: seq<u8>, i: nat, n: nat, v: nat)
    requires i + n <= |d| && v < ByteRange(n)
    ensures Cells(SetCells(d, i, n, v), i, n) == v
    decreases n
  {
    if n > 0 {
      var d1 := d[i := v % 256];
      SetThenCells(d1, i + 1, n - 1, v / 256);
      SetFrame(d1, i + 1, n - 1, v / 256, i);
    }
  }

  lemma {:induction false} SameCells(d: seq<u8>, d': seq<u8>, i: nat, n: nat)
    requires i + n <= |d| && i + n <= |d'| && forall k :: i <= k < i + n ==> d'[k] == d[k]
    ensures Cells(d', i, n) == Cells(d, i, n)
    decreases n
  {
    if n > 0 { SameCells(d, d', i + 1, n - 1); }
  }

  // ---- The image ----

  /** The status word as stored: TOP in bits 13:11. */
  function StatusWord(s: Simd): u16
    requires s.Valid()
  {
    s.status / 0x4000 * 0x4000 + s.top * 0x800 + s.status % 0x800
  }

  /** One bit a register, set when it is *not* empty. */
  function AbridgedTag(tag: u16): u8 { 0xFF - tag % 0x100 }

  /** ST(i), counted from TOP. */
  function StackReg(s: Simd, i: nat): u64
    requires s.Valid()
  {
    s.st[(s.top + i) % 8]
  }

  function XmmCount(long: bool): nat { if long then 16 else 8 }

  ghost predicate HeaderHolds(b: seq<u8>, s: Simd)
    requires |b| >= 32 && s.Valid()
  {
    && Cells(b, 0, 2) == s.control && Cells(b, 2, 2) == StatusWord(s) && b[4] == AbridgedTag(s.tag)
    && Cells(b, 24, 4) == s.mxcsr && Cells(b, 28, 4) == MXCSR_MASK
  }

  ghost predicate SlotHolds(b: seq<u8>, s: Simd, i: nat)
    requires |b| == IMAGE_SIZE && s.Valid() && i < 8
  {
    var x := ToF80(StackReg(s, i));
    Cells(b, 32 + i * 16, 8) == x.sig && Cells(b, 40 + i * 16, 2) == x.se
  }

  ghost predicate XmmHolds(b: seq<u8>, s: Simd, i: nat)
    requires |b| == IMAGE_SIZE && s.Valid() && i < 16
  {
    Cells(b, 160 + i * 16, 16) == s.xmm[i]
  }

  ghost predicate ImageHolds(b: seq<u8>, s: Simd)
    requires s.Valid()
  {
    && |b| == IMAGE_SIZE && HeaderHolds(b, s)
    && (forall i: nat :: i < 8 ==> SlotHolds(b, s, i))
    && forall i: nat :: i < XmmCount(s.long) ==> XmmHolds(b, s, i)
  }

  lemma SameSlot(b: seq<u8>, b': seq<u8>, s: Simd, i: nat)
    requires |b| == |b'| == IMAGE_SIZE && s.Valid() && i < 8
    requires forall k :: 32 + i * 16 <= k < 48 + i * 16 ==> b'[k] == b[k]
    ensures SlotHolds(b', s, i) == SlotHolds(b, s, i)
  {
    hide ToF80, Cells;
    SameCells(b, b', 32 + i * 16, 8);
    SameCells(b, b', 40 + i * 16, 2);
  }

  lemma SameXmm(b: seq<u8>, b': seq<u8>, s: Simd, i: nat)
    requires |b| == |b'| == IMAGE_SIZE && s.Valid() && i < 16
    requires forall k :: 160 + i * 16 <= k < 176 + i * 16 ==> b'[k] == b[k]
    ensures XmmHolds(b', s, i) == XmmHolds(b, s, i)
  {
    hide Cells;
    SameCells(b, b', 160 + i * 16, 16);
  }

  lemma SameHeader(b: seq<u8>, b': seq<u8>, s: Simd)
    requires |b| == |b'| == IMAGE_SIZE && s.Valid()
    requires forall k :: 0 <= k < 32 ==> b'[k] == b[k]
    ensures HeaderHolds(b', s) == HeaderHolds(b, s)
  {
    hide Cells;
    SameCells(b, b', 0, 2);
    SameCells(b, b', 2, 2);
    SameCells(b, b', 24, 4);
    SameCells(b, b', 28, 4);
  }

  // ---- Loading it ----

  /** Eight "empty" bits in the low byte; the high byte comes back set. */
  function TagFrom(abridged: u8): u16 { 0xFF00 + (0xFF - abridged) }

  /** The slot that physical register `p` comes from. */
  function SlotFor(top: nat, p: nat): (i: nat)
    requires top < 8 && p < 8
    ensures i < 8
  {
    (p + 8 - top) % 8
  }

  function LoadedReg(b: seq<u8>, top: nat, p: nat): u64
    requires |b| == IMAGE_SIZE && top < 8 && p < 8
  {
    ByteRanges();
    var i := SlotFor(top, p);
    FromF80(F80(Cells(b, 32 + i * 16, 8), Cells(b, 40 + i * 16, 2)))
  }

  function LoadedXmm(xmm: seq<u128>, b: seq<u8>, long: bool, i: nat): u128
    requires |b| == IMAGE_SIZE && |xmm| == 16 && i < 16
  {
    SixteenBytes();
    if i < XmmCount(long) then Cells(b, 160 + i * 16, 16) else xmm[i]
  }

  /** Control, status, TOP and tag first; an MXCSR with reserved bits stops it there. */
  function Restored(s: Simd, b: seq<u8>): (s': Simd)
    requires s.Valid() && |b| == IMAGE_SIZE
    ensures s'.Valid()
  {
    ByteRanges();
    var sw, top := Cells(b, 2, 2), Cells(b, 2, 2) / 0x800 % 8;
    var s1 := s.(control := Cells(b, 0, 2), status := sw, top := top, tag := TagFrom(b[4]));
    var mx := Cells(b, 24, 4);
    if mx > MXCSR_MASK then
      s1.(pending := if s.pending.Some? then s.pending else Some(Fault(0x0D, Some(0))))
    else
      s1.(mxcsr := mx,
          st := seq<u64>(8, p requires 0 <= p < 8 => LoadedReg(b, top, p)),
          xmm := seq<u128>(16, i requires 0 <= i < 16 => LoadedXmm(s.xmm, b, s.long, i)))
  }

  lemma SixteenBytes()
    ensures ByteRange(16) == 0x1_0000_0000_0000_0000_0000_0000_0000_0000
  {
    ByteRanges();
    assert ByteRange(10) == 0x1_0000_0000_0000_0000_0000;
    assert ByteRange(12) == 0x1_0000_0000_0000_0000_0000_0000;
    assert ByteRange(14) == 0x1_0000_0000_0000_0000_0000_0000_0000;
  }

  // ---- The round trip ----

  lemma StackRestored(s: Simd, b: seq<u8>, p: nat)
    requires s.Valid() && ImageHolds(b, s) && p < 8
    ensures LoadedReg(b, s.top, p) == s.st[p]
  {
    hide FromF80, ToF80, Cells, HeaderHolds;
    var i := SlotFor(s.top, p);
    assert SlotHolds(b, s, i);
    RoundTrip(s.st[p]);
  }

  lemma TopOfStatus(s: Simd)
    requires s.Valid()
    ensures StatusWord(s) / 0x800 % 8 == s.top
    ensures StatusWord(s) == s.status <==> s.status / 0x800 % 8 == s.top
  {
    Division.TwoDigits(s.status, 0x800, 8);
    Division.DivUnique(StatusWord(s), 0x800, s.status / 0x4000 * 8 + s.top, s.status % 0x800);
    Division.DivUnique(s.status / 0x4000 * 8 + s.top, 8, s.status / 0x4000, s.top);
  }

  /** FXSAVE then FXRSTOR, whatever was loaded in between, restores control, TOP,
      MXCSR, every ST bit for bit and every XMM in 64-bit mode -- the first eight of
      them outside it -- and raises nothing. */
  lemma SaveRestores(s: Simd, s0: Simd, b: seq<u8>)
    requires s.Valid() && s0.Valid() && ImageHolds(b, s) && s.long == s0.long && s.mxcsr <= MXCSR_MASK
    ensures var r := Restored(s0, b);
            && r.control == s.control && r.top == s.top && r.mxcsr == s.mxcsr && r.st == s.st
            && (forall i: nat :: i < XmmCount(s.long) ==> r.xmm[i] == s.xmm[i])
            && (s.long ==> r.xmm == s.xmm)
            && r.pending == s0.pending
  {
    hide FromF80, ToF80, Cells;
    TopOfStatus(s);
    var r := Restored(s0, b);
    forall p: nat | p < 8 ensures r.st[p] == s.st[p] { StackRestored(s, b, p); }
    forall i: nat | i < XmmCount(s.long) ensures r.xmm[i] == s.xmm[i] { assert XmmHolds(b, s, i); }
  }

  /** The status word comes back with TOP in it -- itself, exactly when TOP was
      there already -- and the tag word exactly when its unused high byte is set. */
  lemma StatusAndTagRestored(s: Simd, s0: Simd, b: seq<u8>)
    requires s.Valid() && s0.Valid() && ImageHolds(b, s)
    ensures var r := Restored(s0, b);
            && (r.status == s.status <==> s.status / 0x800 % 8 == s.top)
            && r.tag % 0x100 == s.tag % 0x100
            && (r.tag == s.tag <==> s.tag / 0x100 == 0xFF)
  {
    hide FromF80, ToF80, Cells;
    TopOfStatus(s);
  }

  /** The bits of a byte, turned over. */
  lemma TurnedOver(x: nat, i: nat)
    requires x < 0x100 && i < 8
    ensures Pow2(i) > 0 && (0xFF - x) / Pow2(i) % 2 == 1 - x / Pow2(i) % 2
  {
    hide Pow2;
    PowBytes();
    PowAdd(8 - i, i);
    PowNext(7 - i);
    TurnedAt(x, Pow2(i), Pow2(7 - i));
  }

  lemma TurnedAt(x: nat, p: nat, h: nat)
    requires p > 0 && (2 * h) * p == 0x100 && x < 0x100
    ensures (0xFF - x) / p % 2 == 1 - x / p % 2
  {
    var q, r := x / p, x % p;
    Digits(q, r, p, 2 * h, x);
    Division.DivUnique(0xFF - x, p, 2 * h - 1 - q, p - 1 - r);
    OtherParity(q, h);
  }

  lemma Digits(q: int, r: int, p: int, n: int, x: int)
    requires x == q * p + r && n * p == 0x100
    ensures 0xFF - x == (n - 1 - q) * p + (p - 1 - r)
  {
    assert (n - 1 - q) * p == n * p - p - q * p;
  }

  lemma OtherParity(q: int, h: int)
    ensures (2 * h - 1 - q) % 2 == 1 - q % 2
  {
    Division.DivUnique(2 * h - 1 - q, 2, h - 1 - q / 2, 1 - q % 2);
  }

  /** Bit `i` of the saved tag byte is set exactly if bit `i` of the tag word, which
      marks an empty register, is clear; and loading turns it back. */
  lemma TagBits(tag: u16, i: nat)
    requires i < 8
    ensures Pow2(i) > 0
    ensures AbridgedTag(tag) / Pow2(i) % 2 == 1 <==> tag % 0x100 / Pow2(i) % 2 == 0
    ensures TagFrom(AbridgedTag(tag)) == 0xFF00 + tag % 0x100
  {
    TurnedOver(tag % 0x100, i);
  }

  /** Reserved MXCSR bits: a general-protection fault, with the registers, MXCSR
      included, as they were. */
  lemma ReservedMxcsrFaults(s: Simd, b: seq<u8>)
    requires s.Valid() && |b| == IMAGE_SIZE && s.pending.None?
    ensures var r := Restored(s, b);
            && (r.pending.Some? <==> Cells(b, 24, 4) > MXCSR_MASK)
            && (r.pending.Some? ==> r.pending == Some(Fault(0x0D, Some(0)))
                                    && r.mxcsr == s.mxcsr && r.st == s.st && r.xmm == s.xmm)
  {
    hide FromF80, Cells;
  }

  // ---- The unit itself ----

  class Unit {
    var control: u16
    var status: u16
    var tag: u16
    var top: nat
    const st: array<u64>
    var mxcsr: u32
    const xmm: array<u128>
    var long: bool
    var pending: Option<Fault>

    ghost predicate Valid()
      reads this, st, xmm
    {
      State().Valid() && st != xmm as object
    }

    ghost function State(): Simd
      reads this, st, xmm
    {
      Simd(control, status, tag, top, st[..], mxcsr, xmm[..], long, pending)
    }

    /** Power-on state. */
    constructor ()
      ensures Valid() && fresh(st) && fresh(xmm)
      ensures control == 0x037F && status == 0 && tag == 0xFFFF && top == 0 && mxcsr == 0x1F80
      ensures (forall p :: 0 <= p < 8 ==> st[p] == 0) && (forall i :: 0 <= i < 16 ==> xmm[i] == 0)
      ensures !long && pending.None?
    {
      control, status, tag, top, mxcsr, long, pending := 0x037F, 0, 0xFFFF, 0, 0x1F80, false, None;
      st := new u64[8](_ => 0);
      xmm := new u128[16](_ => 0);
    }

    static method Put(b: array<u8>, o: nat, n: nat, v: nat)
      requires o + n <= b.Length && v < ByteRange(n)
      modifies b
      ensures Cells(b[..], o, n) == v
      ensures forall k :: 0 <= k < b.Length && (k < o || o + n <= k) ==> b[k] == old(b[k])
    {
      var k, rest := 0, v;
      while k < n
        invariant k <= n && rest >= 0
        invariant SetCells(b[..], o + k, n - k, rest) == SetCells(old(b[..]), o, n, v)
      {
        b[o + k] := rest % 256;
        rest, k := rest / 256, k + 1;
      }
      SetThenCells(old(b[..]), o, n, v);
      forall j | 0 <= j < b.Length && (j < o || o + n <= j) ensures b[j] == old(b[j]) {
        SetFrame(old(b[..]), o, n, v, j);
        assert b[j] == b[..][j];
      }
    }

    method AbridgeTag() returns (ftw: u8)
      requires Valid()
      ensures ftw == AbridgedTag(tag)
    {
      hide State, Pow2;
      var sum: int := 0;
      PowBytes();
      ZeroPower();
      for i := 0 to 8
        invariant sum == Pow2(i) - 1 - tag % Pow2(i)
      {
        PowNext(i);
        Division.ModSplit(tag, Pow2(i), 2);
        if tag / Pow2(i) % 2 == 0 { sum := sum + Pow2(i); }
      }
      ftw := sum;
    }

    method WidenTag(ftw: u8) returns (t: u16)
      ensures t == TagFrom(ftw)
    {
      hide Pow2;
      var sum: int := 0xFF00;
      PowBytes();
      ZeroPower();
      for i := 0 to 8
        invariant sum == 0xFF00 + Pow2(i) - 1 - ftw % Pow2(i)
      {
        PowNext(i);
        Division.ModSplit(ftw, Pow2(i), 2);
        if ftw / Pow2(i) % 2 == 0 { sum := sum + Pow2(i); }
      }
      t := sum;
    }

    /** The 512-byte image, filled field by field. */
    method SaveImage() returns (b: array<u8>)
      requires Valid()
      ensures fresh(b) && ImageHolds(b[..], State())
    {
      hide Cells, ToF80, StatusWord, Valid, AbridgedTag;
      ghost var s := State();
      assert s.Valid() by { IsValid(); }
      ByteRanges();
      SixteenBytes();
      b := new u8[IMAGE_SIZE](_ => 0);
      SaveHeader(b);
      for i := 0 to 8
        invariant HeaderHolds(b[..], s)
        invariant forall j: nat :: j < i ==> SlotHolds(b[..], s, j)
      {
        ghost var before := b[..];
        SaveSlot(b, i);
        SameHeader(before, b[..], s);
        forall j: nat | j < i ensures SlotHolds(b[..], s, j) { SameSlot(before, b[..], s, j); }
      }
      var n := XmmCount(long);
      for i := 0 to n
        invariant HeaderHolds(b[..], s)
        invariant forall j: nat :: j < 8 ==> SlotHolds(b[..], s, j)
        invariant forall j: nat :: j < i ==> XmmHolds(b[..], s, j)
      {
        ghost var before := b[..];
        Put(b, 160 + i * 16, 16, xmm[i]);
        SameHeader(before, b[..], s);
        forall j: nat | j < 8 ensures SlotHolds(b[..], s, j) { SameSlot(before, b[..], s, j); }
        forall j: nat | j < i ensures XmmHolds(b[..], s, j) { SameXmm(before, b[..], s, j); }
      }
    }

    lemma IsValid()
      requires Valid()
      ensures State().Valid()
    {
    }

    method SaveHeader(b: array<u8>)
      requires Valid() && b.Length == IMAGE_SIZE && b != st as object && b != xmm as object
      modifies b
      ensures HeaderHolds(b[..], State())
    {
      hide Cells, StatusWord, AbridgedTag;
      ByteRanges();
      ghost var s := State();
      Put(b, 0, 2, control);
      ghost var b1 := b[..];
      StatusIs(s);
      Put(b, 2, 2, status / 0x4000 * 0x4000 + top * 0x800 + status % 0x800);
      ghost var b2 := b[..];
      SameCells(b1, b2, 0, 2);
      var ftw := AbridgeTag();
      b[4] := ftw;
      ghost var b3 := b[..];
      SameCells(b2, b3, 0, 2);
      SameCells(b2, b3, 2, 2);
      Put(b, 24, 4, mxcsr);
      ghost var b4 := b[..];
      SameCells(b3, b4, 0, 2);
      SameCells(b3, b4, 2, 2);
      Put(b, 28, 4, MXCSR_MASK);
      SameCells(b4, b[..], 0, 2);
      SameCells(b4, b[..], 2, 2);
      SameCells(b4, b[..], 24, 4);
    }

    method SaveSlot(b: array<u8>, i: nat)
      requires Valid() && b.Length == IMAGE_SIZE && i < 8 && b != st as object && b != xmm as object
      modifies b
      ensures SlotHolds(b[..], State(), i)
      ensures forall k :: 0 <= k < b.Length && (k < 32 + i * 16 || 48 + i * 16 <= k) ==> b[k] == old(b[k])
    {
      hide Cells, ToF80;
      ByteRanges();
      var x := ToF80(st[(top + i) % 8]);
      Put(b, 32 + i * 16, 8, x.sig);
      ghost var b1 := b[..];
      Put(b, 40 + i * 16, 2, x.se);
      SameCells(b1, b[..], 32 + i * 16, 8);
    }

    method LoadStack(b: seq<u8>)
      requires Valid() && |b| == IMAGE_SIZE
      modifies st
      ensures forall p: nat :: p < 8 ==> st[p] == LoadedReg(b, top, p)
    {
      hide Cells, FromF80;
      ByteRanges();
      for i := 0 to 8
        invariant forall p: nat :: p < 8 && SlotFor(top, p) < i ==> st[p] == LoadedReg(b, top, p)
      {
        var idx := (top + i) % 8;
        st[idx] := FromF80(F80(Cells(b, 32 + i * 16, 8), Cells(b, 40 + i * 16, 2)));
      }
    }

    method LoadXmm(b: seq<u8>)
      requires Valid() && |b| == IMAGE_SIZE
      modifies xmm
      ensures forall i: nat :: i < 16 ==> xmm[i] == LoadedXmm(old(xmm[..]), b, long, i)
    {
      hide Cells;
      SixteenBytes();
      var n := XmmCount(long);
      for i := 0 to n
        invariant forall j: nat :: j < 16 ==> xmm[j] == if j < i then Cells(b, 160 + j * 16, 16) else old(xmm[j])
      {
        xmm[i] := Cells(b, 160 + i * 16, 16);
      }
    }

    /** Load the state from an image. */
    method LoadImage(b: seq<u8>)
      requires Valid() && |b| == IMAGE_SIZE
      modifies this, st, xmm
      ensures Valid() && State() == Restored(old(State()), b)
    {
      hide Cells, LoadedReg, LoadedXmm;
      ByteRanges();
      control := Cells(b, 0, 2);
      status := Cells(b, 2, 2);
      top := Cells(b, 2, 2) / 0x800 % 8;
      tag := WidenTag(b[4]);
      var mx := Cells(b, 24, 4);
      if mx > MXCSR_MASK {
        if pending.None? { pending := Some(Fault(0x0D, Some(0))); }
        return;
      }
      mxcsr := mx;
      LoadStack(b);
      LoadXmm(b);
    }
  }

  lemma StatusIs(s: Simd)
    requires s.Valid()
    ensures s.status / 0x4000 * 0x4000 + s.top * 0x800 + s.status % 0x800 == StatusWord(s)
  {
  }
}
