/** Address translation as the processor performs it: control registers, the
    direct-mapped TLB, permission checks, faults, and accessed/dirty updates. */
module Mmu {
  import opened Words
  import opened Memory
  import opened Paging
  import opened WalkStability

  const TLB_SIZE := 256

  /** The control-register bits that translation consults: CR0 bits 0, 16 and
      31, CR4 bit 5, and EFER bits 8, 10 and 11. */
  datatype Cr0 = Cr0(pe: bool, wp: bool, pg: bool)
  datatype Cr4 = Cr4(pae: bool)
  datatype Efer = Efer(lme: bool, lma: bool, nxe: bool)

  /** A linear or physical address without its low 12 bits. */
  type PageNo = x: int | 0 <= x < 0x10_0000_0000_0000

  datatype TlbEntry = TlbEntry(valid: bool, vpage: PageNo, ppage: PageNo,
                               writable: bool, user: bool, exec: bool, dirtied: bool)

  datatype Fault = Fault(vector: u8, code: Option<u32>)

  /** The part of the processor that translation reads and writes. `noTlb` is
      the processor's own switch for walking the tables on every access. */
  datatype State = State(mem: Ram, cr0: Cr0, cr2: u64, cr3: u64, cr4: Cr4, efer: Efer,
                         pe: bool, cs: u16, tlb: seq<TlbEntry>, noTlb: bool,
                         pending: Option<Fault>, ipValid: bool) {
    predicate Valid() { mem.Valid() && |tlb| == TLB_SIZE }
  }

  predicate Pg(s: State) { s.cr0.pg }
  predicate LongMode(s: State) { s.efer.lma }

  function Mode(s: State): PagingMode {
    if !s.cr0.pg then Off
    else if s.efer.lma then Long
    else if s.cr4.pae then Pae
    else Legacy
  }

  lemma ModeWidth(s: State)
    ensures Mode(s) == Off <==> !Pg(s)
    ensures Pg(s) ==> Width(Mode(s)) == 4 || Width(Mode(s)) == 8
  {
  }

  /** Privilege: the low bits of CS, and always 0 in real mode. */
  function Cpl(pe: bool, cs: u16): (l: nat)
    ensures l < 4
  {
    if pe then cs % 4 else 0
  }

  predicate User(s: State) { Cpl(s.pe, s.cs) == 3 }

  function Walk(s: State, linear: u64): Option<Mapping>
    requires s.Valid()
  {
    TranslateMode(s.mem, s.cr3, linear, Mode(s), s.efer.nxe)
  }

  /** The permission test: rings 0 to 2 pass except for a store that CR0.WP stops at a
      read-only page; ring 3 needs U, and W to store; fetching needs X in any ring. */
  predicate Permits(user: bool, wp: bool, writable: bool, pageUser: bool, pageExec: bool,
                    write: bool, fetch: bool)
  {
    && (fetch ==> pageExec)
    && if user then pageUser && (write ==> writable) else !(write && !writable && wp)
  }

  predicate Allowed(s: State, writable: bool, pageUser: bool, pageExec: bool, write: bool, fetch: bool) {
    Permits(User(s), s.cr0.wp, writable, pageUser, pageExec, write, fetch)
  }

  /** A fault is recorded only if the instruction has not faulted already. */
  function RaiseGp(s: State, code: u32): State {
    if s.pending.Some? then s else s.(pending := Some(Fault(0x0D, Some(code))))
  }

  /** Present, write, user, and -- where NX exists -- instruction fetch. */
  function FaultCode(present: bool, write: bool, user: bool, fetch: bool, nxe: bool): u32 {
    (if present then 1 else 0) + (if write then 2 else 0) + (if user then 4 else 0)
    + (if fetch && nxe then 16 else 0)
  }

  function RaisePageFault(s: State, linear: u64, present: bool, write: bool, fetch: bool): State {
    if s.pending.Some? then s
    else
      s.(cr2 := linear,
         pending := Some(Fault(0x0E, Some(FaultCode(present, write, User(s), fetch, s.efer.nxe)))))
  }

  function MarkAccessed(s: State, linear: u64, write: bool): (s': State)
    requires s.Valid()
    ensures s'.Valid() && s' == s.(mem := s'.mem)
  {
    WalkAligned(s.mem, s.cr3, linear, Mode(s), s.efer.nxe);
    match Walk(s, linear)
    case Some(mp) => s.(mem := SetAccessedBits(s.mem, mp, write))
    case None => s
  }

  function TlbIndex(linear: u64): (i: nat)
    ensures i < TLB_SIZE
  {
    linear / 0x1000 % TLB_SIZE
  }

  /** Translate a linear address for a load, a store or an instruction fetch. */
  function Access(s: State, linear: u64, write: bool, fetch: bool): (r: (State, u64))
    requires s.Valid()
    ensures r.0.Valid()
  {
    if LongMode(s) && !Canonical(linear) then (RaiseGp(s, 0), UNBACKED)
    else if !Pg(s) then (s, linear)
    else
      var e := s.tlb[TlbIndex(linear)];
      if e.valid && e.vpage == linear / 0x1000 && !s.noTlb then Hit(s, linear, write, fetch)
      else Miss(s, linear, write, fetch)
  }

  function Hit(s: State, linear: u64, write: bool, fetch: bool): (r: (State, u64))
    requires s.Valid()
    ensures r.0.Valid()
  {
    var i := TlbIndex(linear);
    var e := s.tlb[i];
    if Allowed(s, e.writable, e.user, e.exec, write, fetch) then
      var s' := if write && !e.dirtied then MarkAccessed(s, linear, true).(tlb := s.tlb[i := e.(dirtied := true)])
                else s;
      (s', e.ppage * 0x1000 + linear % 0x1000)
    else (RaisePageFault(s, linear, true, write, fetch), UNBACKED)
  }

  function Fill(mp: Mapping, linear: u64, write: bool): TlbEntry {
    TlbEntry(true, linear / 0x1000, mp.phys / 0x1000, mp.writable, mp.user, mp.exec, write)
  }

  function Miss(s: State, linear: u64, write: bool, fetch: bool): (r: (State, u64))
    requires s.Valid()
    ensures r.0.Valid()
  {
    WalkAligned(s.mem, s.cr3, linear, Mode(s), s.efer.nxe);
    match Walk(s, linear)
    case Some(mp) =>
      if Allowed(s, mp.writable, mp.user, mp.exec, write, fetch) then
        (s.(tlb := s.tlb[TlbIndex(linear) := Fill(mp, linear, write)],
            mem := SetAccessedBits(s.mem, mp, write)),
         mp.phys)
      else (RaisePageFault(s, linear, true, write, fetch), UNBACKED)
    case None => (RaisePageFault(s, linear, false, write, fetch), UNBACKED)
  }

  // ---- Invalidation and control-register writes ----

  function FlushTlb(s: State): (s': State)
    requires s.Valid()
    ensures s'.Valid() && forall i :: 0 <= i < TLB_SIZE ==> !s'.tlb[i].valid
  {
    s.(tlb := seq(TLB_SIZE, i requires 0 <= i < TLB_SIZE => s.tlb[i].(valid := false)), ipValid := false)
  }

  function Invlpg(s: State, linear: u64): (s': State)
    requires s.Valid()
    ensures s'.Valid()
  {
    var e := s.tlb[TlbIndex(linear)];
    if e.valid && e.vpage == linear / 0x1000 then s.(tlb := s.tlb[TlbIndex(linear) := e.(valid := false)])
    else s
  }

  function UpdateLongMode(s: State): (s': State)
    requires s.Valid()
    ensures s'.Valid()
  {
    var want := s.cr0.pg && s.efer.lme;
    if want == s.efer.lma then s else FlushTlb(s.(efer := s.efer.(lma := want)))
  }

  function WriteCr0(s: State, v: Cr0): (s': State)
    requires s.Valid()
    ensures s'.Valid()
  {
    var s1 := s.(cr0 := v, pe := v.pe);
    UpdateLongMode(if s.cr0.pg != v.pg then FlushTlb(s1) else s1)
  }

  function WriteCr3(s: State, v: u64): (s': State)
    requires s.Valid()
    ensures s'.Valid()
  {
    FlushTlb(s.(cr3 := v))
  }

  function WriteCr4(s: State, v: Cr4): (s': State)
    requires s.Valid()
    ensures s'.Valid()
  {
    FlushTlb(s.(cr4 := v))
  }

  /** WRMSR of EFER: LMA is the processor's to set. */
  function WriteEfer(s: State, v: Efer): (s': State)
    requires s.Valid()
    ensures s'.Valid()
  {
    UpdateLongMode(s.(efer := v.(lma := s.efer.lma)))
  }
}
