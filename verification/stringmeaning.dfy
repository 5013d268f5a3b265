/** What whole string instructions do, told by element number. */
module StringMeaning {
  import opened Words
  import opened Memory
  import opened Operands
  import opened SplitAccess
  import opened Alu
  import opened Processor
  import opened Strings
  import opened LinearView
  import opened StringRestart
  import Division

  // ---- Where the elements are ----

  /** Index of element `i`: up from the first, or down when the direction flag is set,
      modulo the address size. */
  function Place(op: StringOp, start: u64, down: bool, i: nat): (v: u64)
    ensures v < AddrRange(op.asize)
  {
    (start + (if down then -(i * op.n) else i * op.n)) % AddrRange(op.asize)
  }

  lemma WrapTwice(x: int, a: AddrSize)
    ensures x % TWO64 % AddrRange(a) == x % AddrRange(a)
  {
    var k := if a == 8 then 1 else if a == 4 then TWO32 else 0x1_0000_0000_0000;
    var y := x % TWO64;
    Division.DivUnique(y, AddrRange(a), y / AddrRange(a), y % AddrRange(a));
    Division.Distribute(x / TWO64, k, AddrRange(a));
    Division.Distribute(x / TWO64 * k, y / AddrRange(a), AddrRange(a));
    Division.DivUnique(x, AddrRange(a), x / TWO64 * k + y / AddrRange(a), y % AddrRange(a));
  }

  /** One step is one element further. */
  lemma AdvanceIsNext(op: StringOp, f: Eflags, v: u64)
    ensures Advance(op, f, v) == Place(op, v, GetFlag(f, DF), 1)
  {
    WrapTwice(if GetFlag(f, DF) then v - op.n else v + op.n, op.asize);
    if op.asize == 8 { Division.ModShift(if GetFlag(f, DF) then v - op.n else v + op.n, 0, TWO64); }
  }

  lemma PlaceCompose(op: StringOp, start: u64, down: bool, i: nat, j: nat)
    ensures Place(op, Place(op, start, down, i), down, j) == Place(op, start, down, i + j)
  {
    assert AddrRange(op.asize) > 0;
    hide AddrRange;
    Division.Distribute(i, j, op.n);
    var there, further := if down then -(i * op.n) else i * op.n, if down then -(j * op.n) else j * op.n;
    Division.ModShift(start + there, further, AddrRange(op.asize));
  }

  lemma PlaceZero(op: StringOp, start: u64, down: bool)
    requires start < AddrRange(op.asize)
    ensures Place(op, start, down, 0) == start
  {
  }

  /** The address of element `i` of the source and of the destination. */
  function SourceOf(c: Cpu, op: StringOp, s: Ideal, i: nat): u64
    requires c.Valid()
  {
    LinearAddr(c, op.seg, Place(op, s.k.si, GetFlag(s.flags, DF), i))
  }

  function DestOf(c: Cpu, op: StringOp, s: Ideal, i: nat): u64
    requires c.Valid()
  {
    LinearAddr(c, Es, Place(op, s.k.di, GetFlag(s.flags, DF), i))
  }

  // ---- The loop variables after any number of elements ----

  /** Elements done between two states of a run. */
  function Done(s: Ideal, s': Ideal): int { s.k.count - s'.k.count }

  ghost predicate Reached(op: StringOp, s: Ideal, s': Ideal) {
    var down := GetFlag(s.flags, DF);
    && 0 <= Done(s, s') && GetFlag(s'.flags, DF) == down
    && s'.k.si == (if UsesSi(op.kind) then Place(op, s.k.si, down, Done(s, s')) else s.k.si)
    && s'.k.di == (if UsesDi(op.kind) then Place(op, s.k.di, down, Done(s, s')) else s.k.di)
  }

  lemma CompareKeepsDf(f: Eflags, a: u64, b: u64, n: Size)
    ensures GetFlag(Compare(f, a, b, n), DF) == GetFlag(f, DF)
  {
    hide Compute;
    ComputeOverwrites(f, f, Cmp, a % Modulus(n), b % Modulus(n), n);
    assert !Overwrites(Cmp, DF);
  }

  lemma ElementReaches(c: Cpu, op: StringOp, T: u64 -> nat, s: Ideal)
    requires c.Valid() && s.mem.Valid() && s.k.count > 0
    ensures Reached(op, s, Element(c, op, T, s)) && Done(s, Element(c, op, T, s)) == 1
  {
    hide Advance, Place, Compare, ValueAt, WriteAt, SetRegW, Repeats, SourceAddr, DestAddr, GetFlag;
    var s1 := Moved(c, op, T, s);
    assert GetFlag(s1.flags, DF) == GetFlag(s.flags, DF) by { MovedKeepsDf(c, op, T, s); }
    AdvanceIsNext(op, s1.flags, s.k.si);
    AdvanceIsNext(op, s1.flags, s.k.di);
  }

  lemma MovedKeepsDf(c: Cpu, op: StringOp, T: u64 -> nat, s: Ideal)
    requires c.Valid() && s.mem.Valid()
    ensures GetFlag(Moved(c, op, T, s).flags, DF) == GetFlag(s.flags, DF)
  {
    hide Compare, ValueAt, WriteAt, SetRegW, SourceAddr, DestAddr, GetFlag;
    if op.kind == Cmps {
      CompareKeepsDf(s.flags, ValueAt(s.mem, T, SourceAddr(c, op, s.k.si), op.n),
                     ValueAt(s.mem, T, DestAddr(c, s.k.di), op.n), op.n);
    } else if op.kind == Scas {
      CompareKeepsDf(s.flags, RegW(s.regs, 0, op.n), ValueAt(s.mem, T, DestAddr(c, s.k.di), op.n), op.n);
    }
  }

  lemma ReachedFurther(op: StringOp, s: Ideal, s1: Ideal, s': Ideal)
    requires Reached(op, s, s1) && Reached(op, s1, s')
    ensures Reached(op, s, s')
  {
    hide Place, GetFlag;
    PlaceCompose(op, s.k.si, GetFlag(s.flags, DF), Done(s, s1), Done(s1, s'));
    PlaceCompose(op, s.k.di, GetFlag(s.flags, DF), Done(s, s1), Done(s1, s'));
  }

  /** The loop variables are within the address size. */
  predicate Fits(op: StringOp, k: Cursor) { k.si < AddrRange(op.asize) && k.di < AddrRange(op.asize) }

  lemma ReachedSelf(op: StringOp, s: Ideal)
    requires Fits(op, s.k)
    ensures Reached(op, s, s)
  {
    PlaceZero(op, s.k.si, GetFlag(s.flags, DF));
    PlaceZero(op, s.k.di, GetFlag(s.flags, DF));
  }

  /** An element more of a run is the last of it. */
  lemma {:induction false} PrefixSnoc(c: Cpu, op: StringOp, T: u64 -> nat, s: Ideal, j: nat)
    requires c.Valid() && s.mem.Valid() && !Ended(Prefix(c, op, T, s, j))
    ensures Prefix(c, op, T, s, j + 1) == Element(c, op, T, Prefix(c, op, T, s, j))
    decreases j
  {
    hide Element;
    if j == 0 {
      assert Prefix(c, op, T, Element(c, op, T, s), 0) == Element(c, op, T, s);
    } else {
      PrefixSnoc(c, op, T, Element(c, op, T, s), j - 1);
    }
  }

  // ---- Moving ----

  predicate Moves(k: Kind) { k == Movs || k == Stos || k == Lods }

  /** What element `i` stores when it is its turn in the memory `mem`. */
  function Stored(c: Cpu, op: StringOp, T: u64 -> nat, s: Ideal, mem: Ram, i: nat): nat
    requires c.Valid() && mem.Valid()
  {
    if op.kind == Movs then ReadAt(mem, Homes(T, SourceOf(c, op, s, i), op.n)) else s.regs[0] % ByteRange(op.n)
  }

  /** The memory after elements 0 to `m - 1`, in this order. */
  function MemoryAfter(c: Cpu, op: StringOp, T: u64 -> nat, s: Ideal, m: nat): (mem: Ram)
    requires c.Valid() && s.mem.Valid()
    ensures mem.Valid() && |mem.data| == |s.mem.data|
  {
    if m == 0 || !Stores(op.kind) then s.mem
    else
      var before := MemoryAfter(c, op, T, s, m - 1);
      WriteAt(before, Homes(T, DestOf(c, op, s, m - 1), op.n), Stored(c, op, T, s, before, m - 1))
  }

  /** The accumulator after them: LODS leaves the last element loaded in its low bytes,
      the upper ones as they were, but for a 32-bit load that clears them. */
  function AccAfter(c: Cpu, op: StringOp, T: u64 -> nat, s: Ideal, m: nat): nat
    requires c.Valid() && s.mem.Valid()
  {
    if m == 0 || op.kind != Lods then s.regs[0]
    else
      var last := ReadAt(s.mem, Homes(T, SourceOf(c, op, s, m - 1), op.n));
      if op.n < 4 then s.regs[0] / ByteRange(op.n) * ByteRange(op.n) + last else last
  }

  /** The state `s'` of a moving run that has come as far as `s'.k` says. */
  ghost predicate MovedTo(c: Cpu, op: StringOp, T: u64 -> nat, s: Ideal, s': Ideal)
    requires c.Valid() && s.mem.Valid()
  {
    && Reached(op, s, s') && s'.flags == s.flags && !s'.over
    && s'.mem == MemoryAfter(c, op, T, s, Done(s, s'))
    && s'.regs == s.regs[0 := AccAfter(c, op, T, s, Done(s, s'))] && AccAfter(c, op, T, s, Done(s, s')) < TWO64
  }

  /** One element more. */
  lemma MovesOne(c: Cpu, op: StringOp, T: u64 -> nat, s: Ideal, s1: Ideal)
    requires c.Valid() && s.mem.Valid() && s1.mem.Valid() && s1.k.count > 0 && Moves(op.kind)
    requires MovedTo(c, op, T, s, s1)
    ensures MovedTo(c, op, T, s, Element(c, op, T, s1)) && Done(s, Element(c, op, T, s1)) == Done(s, s1) + 1
  {
    hide Place, WriteAt, ReadAt, Homes, Advance, Repeats, LinearAddr, SetRegW, RegW, ByteRange, GetFlag;
    ElementReaches(c, op, T, s1);
    var s', m := Element(c, op, T, s1), Done(s, s1);
    ReachedFurther(op, s, s1, s');
    ThereNow(c, op, s, s1);
    if op.kind == Lods {
      AccMore(c, op, T, s, s1.regs, m);
    } else {
      StoresMore(op.n, s1.regs, s.regs, m);
    }
  }

  /** The next element is the one whose number is how many have been done. */
  lemma ThereNow(c: Cpu, op: StringOp, s: Ideal, s1: Ideal)
    requires c.Valid() && Reached(op, s, s1)
    ensures UsesSi(op.kind) ==> SourceAddr(c, op, s1.k.si) == SourceOf(c, op, s, Done(s, s1))
    ensures UsesDi(op.kind) ==> DestAddr(c, s1.k.di) == DestOf(c, op, s, Done(s, s1))
  {
    hide Place, LinearAddr;
  }

  lemma StoresMore(n: Size, g: Regs, was: Regs, m: nat)
    requires g == was[0 := g[0]] && g[0] == was[0]
    ensures g == was && RegW(g, 0, n) == was[0] % ByteRange(n)
  {
    ByteRanges();
  }

  lemma AccMore(c: Cpu, op: StringOp, T: u64 -> nat, s: Ideal, g: Regs, m: nat)
    requires c.Valid() && s.mem.Valid() && op.kind == Lods
    requires AccAfter(c, op, T, s, m) < TWO64 && g == s.regs[0 := AccAfter(c, op, T, s, m)]
    ensures var v := ReadAt(s.mem, Homes(T, SourceOf(c, op, s, m), op.n));
            && v < TWO64 && AccAfter(c, op, T, s, m + 1) < TWO64
            && SetRegW(g, 0, op.n, v) == s.regs[0 := AccAfter(c, op, T, s, m + 1)]
  {
    hide ReadAt, Homes, SourceOf, SetRegW, ByteRange;
    ByteRanges();
    var v := ReadAt(s.mem, Homes(T, SourceOf(c, op, s, m), op.n));
    assert v < ByteRange(op.n) by { ReadFits(s.mem, Homes(T, SourceOf(c, op, s, m), op.n)); }
    AccWritten(g, op.n, v);
    if op.n < 4 {
      SameUpper(s.regs[0], ByteRange(op.n), v);
      if m > 0 {
        var last := ReadAt(s.mem, Homes(T, SourceOf(c, op, s, m - 1), op.n));
        assert last < ByteRange(op.n) by { ReadFits(s.mem, Homes(T, SourceOf(c, op, s, m - 1), op.n)); }
        SameUpper(s.regs[0], ByteRange(op.n), last);
      }
    }
  }

  lemma ReadFits(mem: Ram, addrs: seq<nat>)
    requires mem.Valid()
    ensures ReadAt(mem, addrs) < ByteRange(|addrs|)
  {
  }

  lemma AccWritten(g: Regs, n: Size, v: u64)
    requires v < ByteRange(n)
    ensures SetRegW(g, 0, n, v)
         == g[0 := if n == 1 then g[0] / 0x100 * 0x100 + v else if n == 2 then g[0] / 0x1_0000 * 0x1_0000 + v else v]
  {
    ByteRanges();
    Division.DivUnique(v, ByteRange(n), 0, v);
  }

  lemma SameUpper(x: u64, r: int, v: nat)
    requires (r == 0x100 || r == 0x1_0000) && v < r
    ensures (x / r * r + v) / r * r == x / r * r && x / r * r + v < TWO64
  {
    Division.DivUnique(x / r * r + v, r, x / r, v);
  }

  lemma {:induction false} MovedPrefix(c: Cpu, op: StringOp, T: u64 -> nat, s: Ideal, j: nat)
    requires c.Valid() && s.mem.Valid() && Moves(op.kind) && Fits(op, s.k) && !s.over && j <= s.k.count
    ensures var sj := Prefix(c, op, T, s, j); MovedTo(c, op, T, s, sj) && Done(s, sj) == j
    decreases j
  {
    hide Element, Fits;
    if j == 0 {
      ReachedSelf(op, s);
      assert s.regs[0 := s.regs[0]] == s.regs;
    } else {
      MovedPrefix(c, op, T, s, j - 1);
      PrefixSnoc(c, op, T, s, j - 1);
      MovesOne(c, op, T, s, Prefix(c, op, T, s, j - 1));
    }
  }

  /** A whole run of MOVS, STOS or LODS, by element number. */
  lemma MovedAll(c: Cpu, op: StringOp, T: u64 -> nat, s: Ideal)
    requires c.Valid() && s.mem.Valid() && Moves(op.kind) && Fits(op, s.k) && !s.over
    ensures MovedTo(c, op, T, s, Finish(c, op, T, s)) && Finish(c, op, T, s).k.count == 0
  {
    hide Element, MovedTo, Fits;
    MovedPrefix(c, op, T, s, s.k.count);
    FinishAfterPrefix(c, op, T, s, s.k.count);
  }

  // ---- What a copy or a fill leaves ----

  /** Homes of the bytes of destination element `i`. */
  function DestHomes(c: Cpu, op: StringOp, T: u64 -> nat, s: Ideal, i: nat): seq<nat>
    requires c.Valid()
  {
    Homes(T, DestOf(c, op, s, i), op.n)
  }

  /** The destinations are RAM, each byte one element's, and none a byte of a source. */
  ghost predicate Clear(c: Cpu, op: StringOp, T: u64 -> nat, s: Ideal, m: nat)
    requires c.Valid() && s.mem.Valid()
  {
    && (forall i: nat :: i < m ==> Distinct(DestHomes(c, op, T, s, i)) && AllBacked(s.mem, DestHomes(c, op, T, s, i)))
    && (forall i: nat, j: nat :: i < m && j < m && i != j ==>
          Disjoint(DestHomes(c, op, T, s, i), DestHomes(c, op, T, s, j)))
    && (op.kind == Movs ==> forall i: nat, j: nat :: i < m && j < m ==>
          Disjoint(Homes(T, SourceOf(c, op, s, i), op.n), DestHomes(c, op, T, s, j)))
  }

  ghost predicate Disjoint(a: seq<nat>, b: seq<nat>) { forall x :: x in a ==> x !in b }

  /** A byte of no destination element stays. */
  lemma {:induction false} Untouched(c: Cpu, op: StringOp, T: u64 -> nat, s: Ideal, m: nat, a: nat)
    requires c.Valid() && s.mem.Valid() && forall i: nat :: i < m ==> a !in DestHomes(c, op, T, s, i)
    ensures ReadU8(MemoryAfter(c, op, T, s, m), a) == ReadU8(s.mem, a)
    decreases m
  {
    hide DestOf, Stored, Homes, ReadU8, WriteAt;
    if m > 0 && Stores(op.kind) {
      Untouched(c, op, T, s, m - 1, a);
      var before := MemoryAfter(c, op, T, s, m - 1);
      assert DestHomes(c, op, T, s, m - 1) == Homes(T, DestOf(c, op, s, m - 1), op.n);
      WriteAtFrame(before, Homes(T, DestOf(c, op, s, m - 1), op.n), Stored(c, op, T, s, before, m - 1), a);
    }
  }

  /** Where destinations and sources are apart, MOVS copies and STOS fills: every
      destination element ends as what its source element was before the run, or as the
      accumulator. Every other byte is `Untouched`. */
  lemma {:induction false} CopyOrFill(c: Cpu, op: StringOp, T: u64 -> nat, s: Ideal, m: nat, i: nat)
    requires c.Valid() && s.mem.Valid() && Stores(op.kind) && Clear(c, op, T, s, m) && i < m
    ensures ReadAt(MemoryAfter(c, op, T, s, m), DestHomes(c, op, T, s, i)) == Stored(c, op, T, s, s.mem, i)
    decreases m
  {
    hide DestOf, SourceOf, Homes, ReadU8, WriteAt, ReadAt, DestHomes;
    var before, d := MemoryAfter(c, op, T, s, m - 1), DestHomes(c, op, T, s, m - 1);
    var v := Stored(c, op, T, s, before, m - 1);
    assert d == Homes(T, DestOf(c, op, s, m - 1), op.n) by { DestHomesAre(c, op, T, s, m - 1); }
    if i == m - 1 {
      if op.kind == Movs {
        var src := Homes(T, SourceOf(c, op, s, i), op.n);
        forall a | a in src ensures ReadU8(before, a) == ReadU8(s.mem, a) { Untouched(c, op, T, s, m - 1, a); }
        SameBytesReadAt(s.mem, before, src);
      }
      SameBacking(s.mem, before, d);
      ReadAfterWriteAt(before, d, v);
    } else {
      CopyOrFill(c, op, T, s, m - 1, i);
      var di := DestHomes(c, op, T, s, i);
      forall a | a in di
        ensures ReadU8(WriteAt(before, d, v), a) == ReadU8(before, a)
      {
        WriteAtFrame(before, d, v, a);
      }
      SameBytesReadAt(before, WriteAt(before, d, v), di);
    }
  }

  lemma DestHomesAre(c: Cpu, op: StringOp, T: u64 -> nat, s: Ideal, i: nat)
    requires c.Valid()
    ensures DestHomes(c, op, T, s, i) == Homes(T, DestOf(c, op, s, i), op.n) && |DestHomes(c, op, T, s, i)| == op.n
  {
  }

  lemma SameBacking(mem: Ram, mem': Ram, addrs: seq<nat>)
    requires mem.Valid() && mem'.Valid() && |mem'.data| == |mem.data| && AllBacked(mem, addrs)
    ensures AllBacked(mem', addrs)
  {
    forall a | a in addrs ensures Slot(mem', a).Some? { assert Slot(mem, a).Some?; }
  }

  // ---- Comparing ----

  /** The two numbers that element `i` compares. */
  function Compared(c: Cpu, op: StringOp, T: u64 -> nat, s: Ideal, i: nat): (nat, nat)
    requires c.Valid() && s.mem.Valid()
  {
    (if op.kind == Cmps then ReadAt(s.mem, Homes(T, SourceOf(c, op, s, i), op.n)) else s.regs[0] % ByteRange(op.n),
     ReadAt(s.mem, Homes(T, DestOf(c, op, s, i), op.n)))
  }

  predicate Equal(c: Cpu, op: StringOp, T: u64 -> nat, s: Ideal, i: nat)
    requires c.Valid() && s.mem.Valid()
  {
    Compared(c, op, T, s, i).0 == Compared(c, op, T, s, i).1
  }

  /** REPE goes on while the elements are equal, REPNE while they differ. */
  predicate GoesOn(c: Cpu, op: StringOp, T: u64 -> nat, s: Ideal, i: nat)
    requires c.Valid() && s.mem.Valid()
  {
    op.rep != NoRep && Equal(c, op, T, s, i) == (op.rep == Repe)
  }

  /** A comparing run after `m` elements, of which all but the last went on: only the
      loop variables and the flags have moved, and the flags are those of the last. */
  ghost predicate ComparedTo(c: Cpu, op: StringOp, T: u64 -> nat, s: Ideal, s': Ideal)
    requires c.Valid() && s.mem.Valid()
  {
    var m := Done(s, s');
    && Reached(op, s, s') && s'.mem == s.mem && s'.regs == s.regs
    && (forall i: nat :: i < m - 1 ==> GoesOn(c, op, T, s, i))
    && (m == 0 ==> s'.flags == s.flags && s'.over == s.over)
    && (m > 0 ==>
          var (a, b) := Compared(c, op, T, s, m - 1);
          && a < TWO64 && b < TWO64 && s'.flags == Compare(s.flags, a, b, op.n)
          && s'.over == !(GoesOn(c, op, T, s, m - 1) && s'.k.count > 0))
  }

  /** A comparison depends on the flags before it only where it leaves them alone. */
  lemma CompareAgain(f: Eflags, a: u64, b: u64, a1: u64, b1: u64, n: Size)
    ensures Compare(Compare(f, a, b, n), a1, b1, n) == Compare(f, a1, b1, n)
  {
    hide Compute, Modulus;
    ComputeOverwrites(f, f, Cmp, a % Modulus(n), b % Modulus(n), n);
    ComputeOverwrites(Compare(f, a, b, n), f, Cmp, a1 % Modulus(n), b1 % Modulus(n), n);
  }

  lemma CompareFlags(f: Eflags, a: nat, b: nat, n: Size)
    requires a < ByteRange(n) && b < ByteRange(n) && a < TWO64 && b < TWO64
    ensures a < Modulus(n) && b < Modulus(n) && Compare(f, a, b, n) == Compute(f, Cmp, a, b, n).0
    ensures GetFlag(Compare(f, a, b, n), ZF) == (a == b) && GetFlag(Compare(f, a, b, n), CF) == (a < b)
  {
    hide CarryFlags, LogicFlags, GetFlag, SubOverflow, ByteRange;
    ByteRanges();
    var m := Modulus(n);
    hide Modulus;
    Division.DivUnique(a, m, 0, a);
    Division.DivUnique(b, m, 0, b);
    FlagsRead(f, a, b, (a - b) % m, a < b, SubOverflow(a, b, (a - b) % m, n), n);
    Difference(a, b, m);
  }

  lemma ComparesOne(c: Cpu, op: StringOp, T: u64 -> nat, s: Ideal, s1: Ideal)
    requires c.Valid() && s.mem.Valid() && s1.mem.Valid() && !Ended(s1) && Compares(op.kind)
    requires ComparedTo(c, op, T, s, s1)
    ensures ComparedTo(c, op, T, s, Element(c, op, T, s1)) && Done(s, Element(c, op, T, s1)) == Done(s, s1) + 1
  {
    hide Place, ReadAt, Homes, Advance, LinearAddr, ByteRange, GetFlag, Compare, RegW;
    ElementReaches(c, op, T, s1);
    var s', m := Element(c, op, T, s1), Done(s, s1);
    ReachedFurther(op, s, s1, s');
    ThereNow(c, op, s, s1);
    AccPart(op.n, s.regs);
    var (a, b) := Compared(c, op, T, s, m);
    ComparedFits(c, op, T, s, m);
    CompareFlags(s1.flags, a, b, op.n);
    if m > 0 {
      var (x, y) := Compared(c, op, T, s, m - 1);
      CompareAgain(s.flags, x, y, a, b, op.n);
    }
  }

  lemma AccPart(n: Size, g: Regs)
    ensures RegW(g, 0, n) == g[0] % ByteRange(n)
  {
    ByteRanges();
  }

  lemma ComparedFits(c: Cpu, op: StringOp, T: u64 -> nat, s: Ideal, i: nat)
    requires c.Valid() && s.mem.Valid()
    ensures Compared(c, op, T, s, i).0 < ByteRange(op.n) && Compared(c, op, T, s, i).1 < ByteRange(op.n)
    ensures Compared(c, op, T, s, i).0 < TWO64 && Compared(c, op, T, s, i).1 < TWO64
  {
    hide SourceOf, DestOf;
    ByteRanges();
  }

  lemma {:induction false} ComparedPrefix(c: Cpu, op: StringOp, T: u64 -> nat, s: Ideal, j: nat)
    requires c.Valid() && s.mem.Valid() && Compares(op.kind) && Fits(op, s.k) && !s.over
    ensures var sj := Prefix(c, op, T, s, j); ComparedTo(c, op, T, s, sj) && (Ended(sj) || Done(s, sj) == j)
    decreases j
  {
    hide Element, Fits;
    if j == 0 {
      ReachedSelf(op, s);
    } else {
      ComparedPrefix(c, op, T, s, j - 1);
      var s1 := Prefix(c, op, T, s, j - 1);
      if Ended(s1) {
        PrefixStays(c, op, T, s, j - 1);
      } else {
        PrefixSnoc(c, op, T, s, j - 1);
        ComparesOne(c, op, T, s, s1);
      }
    }
  }

  lemma {:induction false} PrefixStays(c: Cpu, op: StringOp, T: u64 -> nat, s: Ideal, j: nat)
    requires c.Valid() && s.mem.Valid() && Ended(Prefix(c, op, T, s, j))
    ensures Prefix(c, op, T, s, j + 1) == Prefix(c, op, T, s, j)
    decreases j
  {
    hide Element;
    if !Ended(s) { PrefixStays(c, op, T, Element(c, op, T, s), j - 1); }
  }

  /** A whole run of CMPS or SCAS stops behind the first element that does not go on,
      or when the count is used up. */
  lemma ComparedAll(c: Cpu, op: StringOp, T: u64 -> nat, s: Ideal)
    requires c.Valid() && s.mem.Valid() && Compares(op.kind) && Fits(op, s.k) && !s.over
    ensures var s' := Finish(c, op, T, s);
            var m := Done(s, s');
            && ComparedTo(c, op, T, s, s') && m <= s.k.count
            && (m < s.k.count ==> m > 0 && !GoesOn(c, op, T, s, m - 1))
  {
    hide Element, Fits, Compared, GetFlag, Place;
    ComparedPrefix(c, op, T, s, s.k.count);
    FinishAfterPrefix(c, op, T, s, s.k.count);
    var sj := Prefix(c, op, T, s, s.k.count);
    assert Ended(sj);
    assert Finish(c, op, T, sj) == sj;
  }

  // ---- The instruction, however often it faulted ----

  /** An index or count register that held `was`, with `v` written at the address size:
      a 16-bit write keeps the upper bytes, a wider one leaves `v` alone. */
  function Indexed(op: StringOp, was: u64, v: int): int {
    (if op.asize == 2 then was / 0x1_0000 * 0x1_0000 else 0) + v
  }

  /** The registers of `g'` are those of `g` but for the indices and the count, which
      are `m` elements on, and the accumulator. */
  ghost predicate Registers(op: StringOp, g: Regs, down: bool, m: nat, acc: nat, g': Regs) {
    var r := AddrRange(op.asize);
    && g'[6] == (if UsesSi(op.kind) then Indexed(op, g[6], Place(op, g[6] % r, down, m)) else g[6])
    && g'[7] == (if UsesDi(op.kind) then Indexed(op, g[7], Place(op, g[7] % r, down, m)) else g[7])
    && g'[1] == (if op.rep != NoRep then Indexed(op, g[1], g[1] % r - m) else g[1])
    && g'[0] == acc
    && forall i: RegNo :: i != 0 && i != 1 && i != 6 && i != 7 ==> g'[i] == g[i]
  }

  lemma IndexRead(g: Regs, i: RegNo, a: AddrSize)
    ensures RegW(g, i, a) == g[i] % AddrRange(a) && RegW(g, i, a) < AddrRange(a)
  {
    if a == 8 { Division.DivUnique(g[i], TWO64, 0, g[i]); }
  }

  lemma IndexWritten(op: StringOp, g: Regs, i: RegNo, v: u64)
    requires v < AddrRange(op.asize)
    ensures SetRegW(g, i, op.asize, v)[i] == Indexed(op, g[i], v)
    ensures forall k: RegNo :: k != i ==> SetRegW(g, i, op.asize, v)[k] == g[k]
  {
    Division.DivUnique(v, AddrRange(op.asize), 0, v);
  }

  lemma RegistersAre(op: StringOp, g: Regs, f: Eflags, k: Cursor, m: nat, acc: u64)
    requires var down, start := GetFlag(f, DF), Start(op, g);
             && k.si == (if UsesSi(op.kind) then Place(op, start.si, down, m) else start.si)
             && k.di == (if UsesDi(op.kind) then Place(op, start.di, down, m) else start.di)
             && k.count == start.count - m
    ensures Registers(op, g, GetFlag(f, DF), m, acc, Recorded(op, g[0 := acc], k))
    ensures Recorded(op, g[0 := acc], k)[0] == acc
    ensures Start(op, g).count == (if op.rep == NoRep then 1 else g[1] % AddrRange(op.asize))
  {
    hide AddrRange, Place, Indexed, SetRegW, RegW, GetFlag;
    IndexRead(g, SI, op.asize);
    IndexRead(g, DI, op.asize);
    IndexRead(g, CX, op.asize);
    var h := g[0 := acc];
    var g1 := if UsesSi(op.kind) then SetRegW(h, SI, op.asize, k.si) else h;
    var g2 := if UsesDi(op.kind) then SetRegW(g1, DI, op.asize, k.di) else g1;
    if UsesSi(op.kind) { IndexWritten(op, h, SI, k.si); }
    if UsesDi(op.kind) { IndexWritten(op, g1, DI, k.di); }
    if op.rep != NoRep { IndexWritten(op, g2, CX, k.count); }
  }

  lemma StartIsIn(op: StringOp, g: Regs)
    ensures Fits(op, Start(op, g))
  {
    IndexRead(g, SI, op.asize);
    IndexRead(g, DI, op.asize);
  }

  lemma StartValid(starts: seq<Cpu>, backing: seq<Ram>, op: StringOp, T: u64 -> nat, A: iset<u64>)
    requires History(starts, backing, op, T, A)
    ensures |starts| > 0 && |backing| > 0 && starts[0].Valid() && backing[0].Valid()
    ensures starts[|starts| - 1].Valid()
  {
    hide Ready, Repaired, Exec;
  }

  /** What a string instruction does, faults and restarts included. MOVS, STOS and LODS
      do every element; CMPS and SCAS stop behind the first whose equality breaks the
      prefix, with the flags of comparing it, ZF its equality and CF its order. Then the index registers are
      exactly that many elements further on, or back. */
  lemma InstructionMeans(starts: seq<Cpu>, backing: seq<Ram>, op: StringOp, T: u64 -> nat, A: iset<u64>)
      returns (m: nat)
    requires History(starts, backing, op, T, A) && !Faulted(Exec(starts[|starts| - 1], op))
    ensures var c, c' := starts[0], Exec(starts[|starts| - 1], op);
            var s := IdealStart(c, op, backing[0]);
            var n: nat := if op.rep == NoRep then 1 else c.regs[1] % AddrRange(op.asize);
            && m <= n && Registers(op, c.regs, GetFlag(c.flags, DF), m, c'.regs[0], c'.regs)
            && (Moves(op.kind) ==>
                  && m == n && c'.regs[0] == AccAfter(c, op, T, s, n) && c'.flags == c.flags
                  && Shows(c'.mmu, c'.mmu.mem, T, A, MemoryAfter(c, op, T, s, n)))
            && (Compares(op.kind) ==>
                  && (forall i: nat :: i < m - 1 ==> GoesOn(c, op, T, s, i))
                  && (m < n ==> m > 0 && !GoesOn(c, op, T, s, m - 1))
                  && c'.regs[0] == c.regs[0] && Shows(c'.mmu, c'.mmu.mem, T, A, s.mem)
                  && (m == 0 ==> c'.flags == c.flags)
                  && (m > 0 ==>
                        var (a, b) := Compared(c, op, T, s, m - 1);
                        && a < Modulus(op.n) && b < Modulus(op.n) && c'.flags == Compute(c.flags, Cmp, a, b, op.n).0
                        && GetFlag(c'.flags, ZF) == (a == b) && GetFlag(c'.flags, CF) == (a < b)))
  {
    hide History, Exec, Finish, Shows, AbsentKept, Recorded, Registers, Place, AccAfter, MemoryAfter, Compared, GoesOn,
      AddrRange, GetFlag, Start;
    RestartTransparent(starts, backing, op, T, A);
    StartValid(starts, backing, op, T, A);
    var c := starts[0];
    var s := IdealStart(c, op, backing[0]);
    var whole := Finish(c, op, T, s);
    assert Fits(op, s.k) by { StartIsIn(op, c.regs); }
    if Moves(op.kind) { MovedAll(c, op, T, s); } else { ComparedAll(c, op, T, s); }
    m := Done(s, whole);
    if Compares(op.kind) && m > 0 {
      ComparedFits(c, op, T, s, m - 1);
      CompareFlags(s.flags, Compared(c, op, T, s, m - 1).0, Compared(c, op, T, s, m - 1).1, op.n);
    }
    RegistersAre(op, c.regs, c.flags, whole.k, m, whole.regs[0]);
    assert whole.regs == c.regs[0 := whole.regs[0]];
  }
}
