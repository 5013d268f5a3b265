/** Setting accessed and dirty bits never changes what any walk finds. */
module WalkStability {
  import opened Words
  import opened Memory
  import opened Paging
  import opened PageTables
  import Division

  /** Every entry a walk reads is naturally aligned, whatever CR3 and the tables hold. */
  lemma WalkAligned(mem: Ram, cr3: u64, linear: u64, mode: PagingMode, nxe: bool)
    requires mem.Valid()
    ensures var t := TranslateMode(mem, cr3, linear, mode, nxe);
            t.Some? ==> WellFormed(t.value) && t.value.entryBytes == Width(mode)
                        && (mode != Off ==> |t.value.walk| > 0)
  {
    hide ReadU32, ReadU64, Present, Rw, Us, Ps, Nx, Frame4K, Frame2M, Frame1G,
      LegacyFrame4K, LegacyFrame4M, Entry4, Entry8, PdptEntry, EntryStart;
    AlignedEntries();
  }

  // ---- Translations see through the marking ----

  /** Marking entries of width `m` leaves every walk over entries no wider
      than that exactly as it was: same frame, permissions and entry addresses,
      and, found or not, the same entries read. */
  lemma TranslateStable(mem: Ram, mem': Ram, m: nat, cr3: u64, linear: u64, mode: PagingMode, nxe: bool)
    requires mem.Valid() && (m == 4 || m == 8) && Width(mode) <= m && MoreMarked(mem, mem', m)
    ensures TranslateMode(mem', cr3, linear, mode, nxe) == TranslateMode(mem, cr3, linear, mode, nxe)
    ensures Entries(mem', cr3, linear, mode) == Entries(mem, cr3, linear, mode)
  {
    hide TranslateMode, LegacyEntries, PaeEntries, LongEntries, EntryStart, SameFields, ReadEntry, MoreMarked;
    var es, n := Entries(mem, cr3, linear, mode), Width(mode);
    EntriesAligned(mem, cr3, linear, mode);
    MarkedIsValid(mem, mem', m);
    forall i | 0 <= i < |es| ensures SameFields(ReadEntry(mem, es[i], n), ReadEntry(mem', es[i], n)) {
      MarkedEntryReads(mem, mem', es[i], n, m);
      SameEntryFields(ReadEntry(mem, es[i], n), ReadEntry(mem', es[i], n));
    }
    WalkAlike(mem, mem', cr3, linear, mode, nxe);
  }

  lemma MarkedIsValid(mem: Ram, mem': Ram, m: nat)
    requires mem.Valid() && MoreMarked(mem, mem', m)
    ensures mem'.Valid()
  {
  }

  // ---- The marking itself ----

  /** Marking an entry rewrites all its bytes but changes only the first. */
  lemma MarkEntryIsByte(mem: Ram, a: u64, n: nat, dirty: bool)
    requires mem.Valid() && (n == 4 || n == 8) && EntryStart(a, n)
    ensures 0 <= Mark(ReadU8(mem, a), dirty) < 0x100
    ensures MarkEntry(mem, a, n, dirty) == WriteU8(mem, a, Mark(ReadU8(mem, a), dirty))
  {
    hide ReadEntry, Whole, WriteWide, EntryStart, Mark, WriteU8, ReadU8, Read;
    EntryBytes(mem, a, n);
    MarkFirstByte(ReadU8(mem, a), Read(mem, a + 1, n - 1), dirty);
    AlignedIsWhole(mem, a, n);
    RewriteFirstByte(mem, a, n, Mark(ReadU8(mem, a), dirty));
  }

  lemma RewriteFirstByte(mem: Ram, a: nat, n: nat, b: u8)
    requires mem.Valid() && n > 0 && Whole(mem, a, n)
    ensures WriteWide(mem, a, n, b + 0x100 * Read(mem, a + 1, n - 1)) == WriteU8(mem, a, b)
  {
    var rest := Read(mem, a + 1, n - 1);
    var v := b + 0x100 * rest;
    WideWrite(mem, a, n, v);
    hide WriteWide, Whole;
    assert v % 256 == b && v / 256 == rest;
    var m1 := WriteU8(mem, a, b);
    SameBytesSameRead(mem, m1, a + 1, n - 1);
    RestoreRead(m1, a + 1, n - 1);
  }

  lemma MarkEntryMarks(mem: Ram, a: u64, n: nat, dirty: bool)
    requires mem.Valid() && (n == 4 || n == 8) && EntryStart(a, n)
    ensures var mem' := MarkEntry(mem, a, n, dirty);
            && MoreMarked(mem, mem', n)
            && Accessed(ReadU8(mem', a)) && (dirty ==> Dirty(ReadU8(mem', a)))
    ensures Accessed(ReadU8(mem, a)) && (dirty ==> Dirty(ReadU8(mem, a)))
            ==> MarkEntry(mem, a, n, dirty) == mem
  {
    var b := ReadU8(mem, a);
    MarkEntryIsByte(mem, a, n, dirty);
    var mem' := MarkEntry(mem, a, n, dirty);
    if Slot(mem, a).None? { OpenBusIsMarked(); }
    forall x: nat
      ensures MarkedByte(ReadU8(mem, x), ReadU8(mem', x), EntryStart(x, n))
    {
      if x == a && Slot(mem, a).Some? {
        assert ReadU8(mem', x) == Mark(b, dirty);
      } else if x != a {
        assert ReadU8(mem', x) == ReadU8(mem, x);
      }
    }
    if Accessed(b) && (dirty ==> Dirty(b)) {
      assert Mark(b, dirty) == b;
    }
  }

  lemma OpenBusIsMarked()
    ensures Accessed(0xFF) && Dirty(0xFF)
  {
  }

  /** The invariant of the loop over a walk's entries. */
  lemma {:induction false} MarkWalkMarks(mem: Ram, walk: seq<u64>, n: nat, write: bool, i: nat)
    requires mem.Valid() && i <= |walk| && (n == 4 || n == 8)
    requires forall k :: 0 <= k < |walk| ==> EntryStart(walk[k], n)
    ensures var mem' := MarkWalk(mem, walk, n, write, i);
            && MoreMarked(mem, mem', n)
            && (forall k :: i <= k < |walk| ==> Accessed(ReadU8(mem', walk[k])))
            && (write && i < |walk| ==> Dirty(ReadU8(mem', walk[|walk| - 1])))
    decreases |walk| - i
  {
    hide MarkEntry, EntryStart, Accessed, Dirty, ReadU8;
    if i < |walk| {
      var leaf := write && i + 1 == |walk|;
      var mem1 := MarkEntry(mem, walk[i], n, leaf);
      MarkEntryMarks(mem, walk[i], n, leaf);
      MarkWalkMarks(mem1, walk, n, write, i + 1);
      var mem' := MarkWalk(mem1, walk, n, write, i + 1);
      MoreMarkedTransitive(mem, mem1, mem', n);
      assert MarkedByte(ReadU8(mem1, walk[i]), ReadU8(mem', walk[i]), EntryStart(walk[i], n));
    }
  }

  lemma {:induction false} MarkWalkFrame(mem: Ram, walk: seq<u64>, n: nat, write: bool, i: nat, a: nat)
    requires mem.Valid() && i <= |walk| && (n == 4 || n == 8)
    requires forall k :: 0 <= k < |walk| ==> EntryStart(walk[k], n)
    requires forall k :: i <= k < |walk| ==> walk[k] != a
    ensures ReadU8(MarkWalk(mem, walk, n, write, i), a) == ReadU8(mem, a)
    decreases |walk| - i
  {
    hide MarkEntry, Mark, EntryStart;
    if i < |walk| {
      var leaf := write && i + 1 == |walk|;
      MarkEntryIsByte(mem, walk[i], n, leaf);
      MarkWalkFrame(MarkEntry(mem, walk[i], n, leaf), walk, n, write, i + 1, a);
    }
  }

  lemma {:induction false} MarkWalkNoOp(mem: Ram, walk: seq<u64>, n: nat, write: bool, i: nat)
    requires mem.Valid() && i <= |walk| && (n == 4 || n == 8)
    requires forall k :: 0 <= k < |walk| ==> EntryStart(walk[k], n)
    requires forall k :: i <= k < |walk| ==> Accessed(ReadU8(mem, walk[k]))
    requires write && i < |walk| ==> Dirty(ReadU8(mem, walk[|walk| - 1]))
    ensures MarkWalk(mem, walk, n, write, i) == mem
    decreases |walk| - i
  {
    if i < |walk| {
      MarkEntryMarks(mem, walk[i], n, write && i + 1 == |walk|);
      MarkWalkNoOp(mem, walk, n, write, i + 1);
    }
  }

  /** What an update of accessed and dirty bits does: it turns bits on, in the
      entries of the walk and nowhere else, and doing it again changes nothing. */
  lemma SetAccessedMarks(mem: Ram, mp: Mapping, write: bool)
    requires mem.Valid() && WellFormed(mp)
    ensures Marked(SetAccessedBits(mem, mp, write), mp, write)
    ensures |mp.walk| > 0 ==> MoreMarked(mem, SetAccessedBits(mem, mp, write), mp.entryBytes)
    ensures |mp.walk| == 0 ==> SetAccessedBits(mem, mp, write) == mem
    ensures Marked(mem, mp, write) ==> SetAccessedBits(mem, mp, write) == mem
    ensures forall a: nat :: a !in mp.walk ==> ReadU8(SetAccessedBits(mem, mp, write), a) == ReadU8(mem, a)
  {
    hide MarkWalk, Accessed, Dirty, EntryStart, MoreMarked, ReadU8;
    if |mp.walk| > 0 {
      MarkWalkMarks(mem, mp.walk, mp.entryBytes, write, 0);
      if Marked(mem, mp, write) {
        MarkWalkNoOp(mem, mp.walk, mp.entryBytes, write, 0);
      }
      forall a: nat | a !in mp.walk ensures ReadU8(SetAccessedBits(mem, mp, write), a) == ReadU8(mem, a) {
        MarkWalkFrame(mem, mp.walk, mp.entryBytes, write, 0, a);
      }
    } else {
      NothingToMark(mem, mp.walk, mp.entryBytes, write);
    }
  }

  /** `b'` is `b` with bit 5 turned on if `accessed`, bit 6 if `dirty`, and no other. */
  predicate TurnedOn(b: u8, b': u8, accessed: bool, dirty: bool) {
    SameEntry(b, b') && (Accessed(b') <==> Accessed(b) || accessed) && (Dirty(b') <==> Dirty(b) || dirty)
  }

  lemma MarkEntryExactly(mem: Ram, a: u64, n: nat, dirty: bool, x: nat)
    requires mem.Valid() && (n == 4 || n == 8) && EntryStart(a, n)
    ensures TurnedOn(ReadU8(mem, x), ReadU8(MarkEntry(mem, a, n, dirty), x), x == a, x == a && dirty)
  {
    hide SameEntry, Mark, Accessed, Dirty, EntryStart, MarkEntry;
    MarkEntryIsByte(mem, a, n, dirty);
    SameEntryIsReflexive(ReadU8(mem, x));
    if Slot(mem, a).None? { OpenBusIsMarked(); }
  }

  lemma SameEntryIsReflexive(b: u8)
    ensures SameEntry(b, b)
  {
  }

  lemma TurnedOnTwice(b: u8, b1: u8, b': u8, a: bool, d: bool, a': bool, d': bool)
    requires TurnedOn(b, b1, a, d) && TurnedOn(b1, b', a', d')
    ensures TurnedOn(b, b', a || a', d || d')
  {
  }

  lemma {:induction false} MarkWalkExactly(mem: Ram, walk: seq<u64>, n: nat, write: bool, i: nat, x: nat)
    requires mem.Valid() && i <= |walk| && (n == 4 || n == 8)
    requires forall k :: 0 <= k < |walk| ==> EntryStart(walk[k], n)
    ensures TurnedOn(ReadU8(mem, x), ReadU8(MarkWalk(mem, walk, n, write, i), x), x in walk[i..],
                     write && i < |walk| && x == walk[|walk| - 1])
    decreases |walk| - i
  {
    hide MarkEntry, EntryStart, ReadU8, TurnedOn;
    if i == |walk| {
      Unturned(ReadU8(mem, x));
    } else {
      var leaf := write && i + 1 == |walk|;
      var mem1 := MarkEntry(mem, walk[i], n, leaf);
      MarkEntryExactly(mem, walk[i], n, leaf, x);
      MarkWalkExactly(mem1, walk, n, write, i + 1, x);
      assert walk[i..] == [walk[i]] + walk[i + 1..];
      TurnedOnTwice(ReadU8(mem, x), ReadU8(mem1, x), ReadU8(MarkWalk(mem1, walk, n, write, i + 1), x),
                    x == walk[i], x == walk[i] && leaf,
                    x in walk[i + 1..], write && i + 1 < |walk| && x == walk[|walk| - 1]);
    }
  }

  lemma Unturned(b: u8)
    ensures TurnedOn(b, b, false, false)
  {
  }

  /** Which bits it turns on, at every address: accessed in each entry of the walk, dirty
      in its leaf for a store. */
  lemma SetAccessedExactly(mem: Ram, mp: Mapping, write: bool, x: nat)
    requires mem.Valid() && WellFormed(mp) && |mp.walk| > 0
    ensures TurnedOn(ReadU8(mem, x), ReadU8(SetAccessedBits(mem, mp, write), x), x in mp.walk,
                     write && x == mp.walk[|mp.walk| - 1])
  {
    hide MarkWalk, EntryStart, ReadU8, TurnedOn;
    MarkWalkExactly(mem, mp.walk, mp.entryBytes, write, 0, x);
    assert mp.walk[0..] == mp.walk;
  }

  lemma NothingToMark(mem: Ram, walk: seq<u64>, n: nat, write: bool)
    requires mem.Valid() && |walk| == 0
    ensures MarkWalk(mem, walk, n, write, 0) == mem
  {
  }

  /** Walk stability. However the tables are laid out -- an entry may serve
      several levels of its own walk -- setting the accessed and dirty bits of
      one translation changes no translation of any address through any root, in
      any paging mode whose entries are no wider, and setting them twice is
      setting them once. */
  lemma WalkStable(mem: Ram, cr3: u64, linear: u64, mode: PagingMode, nxe: bool, write: bool,
                   cr3': u64, linear': u64, mode': PagingMode, nxe': bool)
    requires mem.Valid() && TranslateMode(mem, cr3, linear, mode, nxe).Some? && Width(mode') <= Width(mode)
    ensures var mp := TranslateMode(mem, cr3, linear, mode, nxe).value;
            && WellFormed(mp)
            && var mem' := SetAccessedBits(mem, mp, write);
            && TranslateMode(mem', cr3', linear', mode', nxe') == TranslateMode(mem, cr3', linear', mode', nxe')
            && SetAccessedBits(mem', mp, write) == mem'
  {
    hide TranslateMode, MarkWalk, MoreMarked, Marked, EntryStart;
    WalkAligned(mem, cr3, linear, mode, nxe);
    var mp := TranslateMode(mem, cr3, linear, mode, nxe).value;
    SetAccessedMarks(mem, mp, write);
    var mem' := SetAccessedBits(mem, mp, write);
    SetAccessedMarks(mem', mp, write);
    if mode != Off {
      TranslateStable(mem, mem', mp.entryBytes, cr3', linear', mode', nxe');
    } else {
    }
  }

  /** The width condition is needed: the accessed bit of the upper 4-byte entry in
      an 8-byte one is bit 37 of that entry, and moves the frame it names. */
  lemma NarrowMarksMoveFrames(mem: Ram, a: u64)
    requires mem.Valid() && a % 8 == 0 && Backed(mem, a, 8) && !Accessed(ReadU8(mem, a + 4))
    ensures a + 4 < TWO64
    ensures Frame4K(ReadU64(MarkEntry(mem, a + 4, 4, false), a)) != Frame4K(ReadU64(mem, a))
  {
    hide MarkEntry, ReadU64, WriteU8, ReadU8, Read, Slot, Frame4K, Mark, Accessed, Dirty, SameEntry, Backed,
      EntryStart;
    assert EntryStart(a + 4, 4) by { UpperAligned(a); }
    var mem' := MarkEntry(mem, a + 4, 4, false);
    MarkEntryIsByte(mem, a + 4, 4, false);
    UpperByte(mem, a);
    UpperByte(mem', a);
    var b := ReadU8(mem, a + 4);
    ByteChanged(mem, a, Mark(b, false));
    MarkAdds(b);
    FrameMoves(ReadU64(mem, a), ReadU64(mem', a));
  }

  lemma UpperAligned(a: u64)
    requires a % 8 == 0
    ensures a + 4 < TWO64 && EntryStart(a + 4, 4)
  {
    var q: int := a / 8;
    assert a == 8 * q && q < 0x2000_0000_0000_0000;
    Division.DivUnique(8 * q + 4, 4, 2 * q + 1, 0);
  }

  lemma MarkAdds(b: u8)
    requires !Accessed(b)
    ensures Mark(b, false) == b + 0x20
  {
  }

  lemma FrameMoves(e: u64, e': u64)
    requires e' == e + 0x20 * TWO32
    ensures Frame4K(e') != Frame4K(e)
  {
    var q: int := e / 0x1000;
    Division.DivUnique(e', 0x1000, q + 0x200_0000, e % 0x1000);
    if q % 0x100_0000_0000 + 0x200_0000 < 0x100_0000_0000 {
      Division.DivUnique(q + 0x200_0000, 0x100_0000_0000, q / 0x100_0000_0000, q % 0x100_0000_0000 + 0x200_0000);
    } else {
      Division.DivUnique(q + 0x200_0000, 0x100_0000_0000, q / 0x100_0000_0000 + 1,
                         q % 0x100_0000_0000 + 0x200_0000 - 0x100_0000_0000);
    }
  }

  lemma UpperByte(mem: Ram, a: u64)
    requires mem.Valid() && a % 8 == 0
    ensures ReadU64(mem, a) == Read(mem, a, 4) + TWO32 * (ReadU8(mem, a + 4) + 256 * Read(mem, a + 5, 3))
  {
    hide ReadU64;
    AlignedIsWhole(mem, a, 8);
    WideReads(mem, a);
    ReadConcat(mem, a, 4, 4);
    ByteRanges();
    assert Read(mem, a + 4, 4) == ReadU8(mem, a + 4) + 256 * Read(mem, a + 5, 3);
  }

  lemma ByteChanged(mem: Ram, a: nat, b: u8)
    requires mem.Valid() && Backed(mem, a, 8)
    ensures var mem' := WriteU8(mem, a + 4, b);
            && ReadU8(mem', a + 4) == b && Read(mem', a, 4) == Read(mem, a, 4)
            && Read(mem', a + 5, 3) == Read(mem, a + 5, 3)
  {
    var mem' := WriteU8(mem, a + 4, b);
    assert Slot(mem, a + 4).Some?;
    SameBytesSameRead(mem, mem', a, 4);
    SameBytesSameRead(mem, mem', a + 5, 3);
  }
}
