/** Writes to pmpaddr, pmpcfg and mseccfg (riscv/csrs.cc), and what a locked entry keeps over all runs of them. */
module PmpLock {
  import opened Words
  import opened Pmp

  // ----- one write

  /** next_locked_and_tor */
  predicate NextLockedAndTor(s: Csrs, i: nat)
    requires CsrsOk(s)
  {
    i + 1 < MAX_PMP && !Rlb(s) && Locked(s.cfg[i + 1]) && s.cfg[i + 1] & A == TOR
  }

  predicate AddrWritable(m: Machine, s: Csrs, i: nat)
    requires CsrsOk(s) && i < MAX_PMP
  {
    i < m.entries && (Rlb(s) || !Locked(s.cfg[i])) && !NextLockedAndTor(s, i)
  }

  /** pmpaddr_csr_t::unlogged_write */
  function AfterAddr(m: Machine, s: Csrs, i: nat, v: bv64): (r: Csrs)
    requires CsrsOk(s) && i < MAX_PMP
    ensures CsrsOk(r)
  {
    if AddrWritable(m, s, i) then s.(val := s.val[i := v & PADDR_MASK]) else s
  }

  function LowByte(v: bv64): (b: bv8) { (v & 0xFF) as bv8 }

  function NextByte(v: bv64): (w: bv64) { v >> 8 }

  function Shifted(v: bv64, k: nat): (w: bv64) {
    if k == 0 then v else NextByte(Shifted(v, k - 1))
  }

  /** The k-th byte of a word, the lowest first. */
  function Byte(v: bv64, k: nat): (b: bv8) {
    LowByte(Shifted(v, k))
  }

  /** The configuration that a written byte asks for. */
  function Asked(m: Machine, mml: bool, b: bv8): (cfg: bv8) {
    var c := b & (R | W | X | A | L);
    var d := if mml then c else c & (!W | (if c & R != 0 then W else 0));
    if m.torMask != 0xFFFF_FFFF_FFFF_FFFF && d & A == NA4 then d | NAPOT else d
  }

  /** A rule with executable privileges that is for M-mode only, or a locked shared region. */
  predicate MachineExecutable(cfg: bv8) {
    var x, w, r := cfg & X != 0, cfg & W != 0, cfg & R != 0;
    Locked(cfg) && !(x && w && r) && (x || (w && !r))
  }

  /** What becomes of one configuration byte. */
  function NewCfg(m: Machine, rlb: bool, mml: bool, was: bv8, b: bv8): (cfg: bv8) {
    var c := Asked(m, mml, b);
    if !rlb && Locked(was) then was
    else if rlb || !(mml && MachineExecutable(c)) then c
    else was
  }

  /** The entries a pmpcfg register holds. */
  predicate Held(m: Machine, csr: nat, i: nat) {
    csr * 4 <= i < csr * 4 + (if m.xlen64 then 8 else 4) && i < m.entries
  }

  /** pmpcfg_csr_t::unlogged_write */
  function AfterCfg(m: Machine, s: Csrs, csr: nat, v: bv64): (r: Csrs)
    requires CsrsOk(s)
    ensures CsrsOk(r) && r.val == s.val && r.sec == s.sec
    ensures forall i | 0 <= i < MAX_PMP ::
              r.cfg[i] == if Held(m, csr, i) then NewCfg(m, Rlb(s), Mml(s), s.cfg[i], Byte(v, i - csr * 4)) else s.cfg[i]
  {
    s.(cfg := seq(MAX_PMP, i requires 0 <= i < MAX_PMP =>
      if Held(m, csr, i) then NewCfg(m, Rlb(s), Mml(s), s.cfg[i], Byte(v, i - csr * 4)) else s.cfg[i]))
  }

  /** pmplock_recorded */
  predicate LockRecorded(m: Machine, s: Csrs)
    requires CsrsOk(s)
  {
    exists i: nat :: i < m.entries && i < MAX_PMP && Locked(s.cfg[i])
  }

  /** A word with the bits of a mask taken from another. */
  function Replace(w: bv64, mask: bv64, v: bv64): (r: bv64) {
    (w & !mask) | (v & mask)
  }

  /** A word with the bits of a mask set where another has them. */
  function SetAlso(w: bv64, mask: bv64, v: bv64): (r: bv64) {
    w | (v & mask)
  }

  function NewSec(m: Machine, sec: bv64, recorded: bool, v: bv64): (r: bv64) {
    var a := if recorded && sec & RLB == 0 then sec else Replace(sec, RLB, v);
    var b := SetAlso(SetAlso(a, MMWP, v), MML, v);
    var c := if m.zkr then Replace(b, USEED | SSEED, v) else b;
    var d := if m.zicfilp then Replace(c, MLPE, v) else c;
    if m.smmpm then Replace(d, PMM, if v & PMM != PMM_RESERVED then v else 0) else d
  }

  /** mseccfg_csr_t::unlogged_write */
  function AfterSec(m: Machine, s: Csrs, v: bv64): (r: Csrs)
    requires CsrsOk(s)
    ensures CsrsOk(r)
  {
    if m.entries == 0 then s else s.(sec := NewSec(m, s.sec, LockRecorded(m, s), v))
  }

  /** How mseccfg_csr_t::unlogged_write puts its new value together. */
  method Merge(m: Machine, sec: bv64, recorded: bool, v: bv64) returns (r: bv64)
    ensures r == NewSec(m, sec, recorded, v)
  {
    hide Replace, SetAlso;
    r := sec;
    if !(recorded && sec & RLB == 0) {
      r := Replace(r, RLB, v);
    }
    r := SetAlso(r, MMWP, v);
    r := SetAlso(r, MML, v);
    if m.zkr {
      r := Replace(r, USEED | SSEED, v);
    }
    if m.zicfilp {
      r := Replace(r, MLPE, v);
    }
    if m.smmpm {
      r := Replace(r, PMM, if v & PMM != PMM_RESERVED then v else 0);
    }
  }

  // ----- what the writes mean, bit by bit

  lemma ShiftTwice(v: bv64)
    ensures NextByte(v >> 8) == v >> 16 && NextByte(v >> 16) == v >> 24 && NextByte(v >> 24) == v >> 32
    ensures NextByte(v >> 32) == v >> 40 && NextByte(v >> 40) == v >> 48 && NextByte(v >> 48) == v >> 56
    ensures NextByte(v) == v >> 8
  {
  }

  /** Byte 0 of a word is its lowest, byte 7 its highest. */
  lemma ByteOrder(v: bv64)
    ensures Byte(v, 0) == LowByte(v) && Byte(v, 1) == LowByte(v >> 8) && Byte(v, 2) == LowByte(v >> 16) && Byte(v, 3) == LowByte(v >> 24)
    ensures Byte(v, 4) == LowByte(v >> 32) && Byte(v, 5) == LowByte(v >> 40) && Byte(v, 6) == LowByte(v >> 48) && Byte(v, 7) == LowByte(v >> 56)
  {
    hide LowByte, NextByte;
    ShiftTwice(v);
    assert Shifted(v, 0) == v && Shifted(v, 1) == v >> 8 && Shifted(v, 2) == v >> 16 && Shifted(v, 3) == v >> 24;
    assert Shifted(v, 4) == v >> 32 && Shifted(v, 5) == v >> 40 && Shifted(v, 6) == v >> 48 && Shifted(v, 7) == v >> 56;
  }

  /** A configuration is taken as written but for its two unused bits, a W bit without R when MML is clear, and four-byte
      regions where the granularity is coarser. */
  lemma AskedExact(m: Machine, mml: bool, b: bv8)
    ensures var c := Asked(m, mml, b);
            && c & 0x60 == 0 && c & 0x85 == b & 0x85
            && (c & 0x02 != 0 <==> b & 0x02 != 0 && (mml || b & 0x01 != 0))
            && c & 0x18 == if m.torMask != 0xFFFF_FFFF_FFFF_FFFF && b & 0x18 == 0x10 then 0x18 else b & 0x18
  {
  }

  /** Which entries a write of pmpcfg reaches, and what becomes of each: one that is not locked takes the byte written, as a
      locked one does when RLB is set; but with MML set and RLB clear no rule is taken that lets machine mode execute. */
  lemma ConfigTaken(m: Machine, s: Csrs, csr: nat, v: bv64, i: nat)
    requires MachineOk(m) && CsrsOk(s) && i < MAX_PMP
    ensures var r, rlb, mml := AfterCfg(m, s, csr, v), s.sec & 4 != 0, s.sec & 1 != 0;
            if i < m.entries && csr * 4 <= i < csr * 4 + (if m.xlen64 then 8 else 4) && (rlb || s.cfg[i] & 0x80 == 0)
            then
              var c := Asked(m, mml, Byte(v, i - csr * 4));
              r.cfg[i] == if !rlb && mml && AccessOk(c, true, Fetch, true, false) then s.cfg[i] else c
            else r.cfg[i] == s.cfg[i]
  {
    hide Asked, Byte, Rlb, Mml, Locked, AccessOk, MachineExecutable, PowerOfTwo;
    MmlIs(s);
    LockedIs(s.cfg[i]);
    if 0 <= i - csr * 4 < 8 {
      ExecutableIs(Asked(m, s.sec & 1 != 0, Byte(v, i - csr * 4)));
    }
  }

  lemma LockedIs(cfg: bv8)
    ensures Locked(cfg) <==> cfg & 0x80 != 0
  {
  }

  lemma ExecutableIs(cfg: bv8)
    ensures MachineExecutable(cfg) <==> AccessOk(cfg, true, Fetch, true, false)
  {
  }

  /** An address register takes the 62 bits written exactly when the entry exists, it is not locked and the next one is not a
      locked range; RLB lifts both locks. */
  lemma AddressTaken(m: Machine, s: Csrs, i: nat, v: bv64)
    requires MachineOk(m) && CsrsOk(s) && i < MAX_PMP
    ensures var r, rlb := AfterAddr(m, s, i, v), s.sec & 4 != 0;
            && r.cfg == s.cfg && r.sec == s.sec && (forall j | 0 <= j < MAX_PMP && j != i :: r.val[j] == s.val[j])
            && r.val[i] ==
               if i < m.entries && (rlb || (s.cfg[i] & 0x80 == 0 && !(i < 63 && s.cfg[i + 1] & 0x80 != 0 && s.cfg[i + 1] & 0x18 == 0x08)))
               then v & 0x3FFF_FFFF_FFFF_FFFF else s.val[i]
  {
    hide Rlb, Locked, PowerOfTwo, NextLockedAndTor;
    MmlIs(s);
    LockedIs(s.cfg[i]);
    NextIs(s, i);
  }

  lemma NextIs(s: Csrs, i: nat)
    requires CsrsOk(s) && i < MAX_PMP
    ensures NextLockedAndTor(s, i) <==> i < 63 && s.sec & 4 == 0 && s.cfg[i + 1] & 0x80 != 0 && s.cfg[i + 1] & 0x18 == 0x08
  {
  }

  /** The bits of a word that a mask selects. */
  function Field(w: bv64, mask: bv64): (f: bv64) { w & mask }

  predicate Clear(f: bv64, mask: bv64) { f & mask == 0 }

  lemma ReplacedField(w: bv64, mask: bv64, v: bv64, other: bv64)
    ensures Field(Replace(w, mask, v), mask) == Field(v, mask)
    ensures Clear(other, mask) ==> Field(Replace(w, mask, v), other) == Field(w, other)
  {
  }

  lemma SetFirst(w: bv64, v: bv64)
    ensures Field(SetAlso(w, 1, v), 1) != 0 <==> Field(w, 1) != 0 || Field(v, 1) != 0
  {
  }

  lemma SetSecond(w: bv64, v: bv64)
    ensures Field(SetAlso(w, 2, v), 2) != 0 <==> Field(w, 2) != 0 || Field(v, 2) != 0
  {
  }

  lemma SetOther(w: bv64, mask: bv64, v: bv64, other: bv64)
    requires Clear(other, mask)
    ensures Field(SetAlso(w, mask, v), other) == Field(w, other)
  {
  }

  lemma SetField(w: bv64, mask: bv64, v: bv64, other: bv64)
    requires mask == 1 || mask == 2
    ensures Field(SetAlso(w, mask, v), mask) != 0 <==> Field(w, mask) != 0 || Field(v, mask) != 0
    ensures Clear(other, mask) ==> Field(SetAlso(w, mask, v), other) == Field(w, other)
  {
    hide Field, SetAlso, Clear;
    if mask == 1 { SetFirst(w, v); } else { SetSecond(w, v); }
    if Clear(other, mask) { SetOther(w, mask, v, other); }
  }

  // The steps of the write with their masks as numbers.

  function RlbStep(sec: bv64, recorded: bool, v: bv64): (r: bv64) {
    if recorded && Field(sec, 4) == 0 then sec else Replace(sec, 4, v)
  }

  function StickyStep(w: bv64, v: bv64): (r: bv64) {
    SetAlso(SetAlso(w, 2, v), 1, v)
  }

  function ReplaceStep(there: bool, w: bv64, mask: bv64, v: bv64): (r: bv64) {
    if there then Replace(w, mask, v) else w
  }

  function ModeAsked(v: bv64): (w: bv64) {
    if Field(v, 0x3_0000_0000) != 0x1_0000_0000 then v else 0
  }

  lemma SecSteps(m: Machine, sec: bv64, recorded: bool, v: bv64)
    ensures NewSec(m, sec, recorded, v)
            == ReplaceStep(m.smmpm,
                           ReplaceStep(m.zicfilp, ReplaceStep(m.zkr, StickyStep(RlbStep(sec, recorded, v), v), 0x300, v), 0x400, v),
                           0x3_0000_0000, ModeAsked(v))
  {
    hide Replace, SetAlso;
    assert USEED | SSEED == 0x300;
  }

  lemma RlbField(sec: bv64, recorded: bool, v: bv64, f: bv64)
    ensures f == 4 ==> Field(RlbStep(sec, recorded, v), f) == if recorded && Field(sec, 4) == 0 then 0 else Field(v, 4)
    ensures Clear(f, 4) ==> Field(RlbStep(sec, recorded, v), f) == Field(sec, f)
  {
    hide Replace, Field, Clear;
    ReplacedField(sec, 4, v, f);
  }

  lemma StickyField(w: bv64, v: bv64, f: bv64)
    ensures f == 1 || f == 2 ==> (Field(StickyStep(w, v), f) != 0 <==> Field(w, f) != 0 || Field(v, f) != 0)
    ensures Clear(f, 1) && Clear(f, 2) ==> Field(StickyStep(w, v), f) == Field(w, f)
  {
    hide SetAlso, Field, Clear;
    FieldsApart(1);
    FieldsApart(2);
    SetField(w, 2, v, f);
    SetField(SetAlso(w, 2, v), 1, v, f);
  }

  lemma ReplaceField(there: bool, w: bv64, mask: bv64, v: bv64, f: bv64)
    ensures f == mask ==> Field(ReplaceStep(there, w, mask, v), f) == if there then Field(v, f) else Field(w, f)
    ensures Clear(f, mask) ==> Field(ReplaceStep(there, w, mask, v), f) == Field(w, f)
  {
    hide Replace, Field, Clear;
    ReplacedField(w, mask, v, f);
  }

  lemma ModeField(v: bv64)
    ensures Field(ModeAsked(v), 0x3_0000_0000) == if Field(v, 0x3_0000_0000) == 0x1_0000_0000 then 0 else Field(v, 0x3_0000_0000)
  {
    hide Field;
    ZeroField(0x3_0000_0000);
  }

  /** A field that the last three steps do not concern. */
  lemma SecEarly(m: Machine, sec: bv64, recorded: bool, v: bv64, f: bv64)
    requires Clear(f, 0x300) && Clear(f, 0x400) && Clear(f, 0x3_0000_0000)
    ensures Field(NewSec(m, sec, recorded, v), f) == Field(StickyStep(RlbStep(sec, recorded, v), v), f)
  {
    hide Field, NewSec, Clear, RlbStep, StickyStep, ReplaceStep, ModeAsked;
    SecSteps(m, sec, recorded, v);
    var b := StickyStep(RlbStep(sec, recorded, v), v);
    var c := ReplaceStep(m.zkr, b, 0x300, v);
    ReplaceField(m.zkr, b, 0x300, v, f);
    ReplaceField(m.zicfilp, c, 0x400, v, f);
    ReplaceField(m.smmpm, ReplaceStep(m.zicfilp, c, 0x400, v), 0x3_0000_0000, ModeAsked(v), f);
  }

  /** A field that the first two steps do not concern. */
  lemma SecLate(sec: bv64, recorded: bool, v: bv64, f: bv64)
    requires Clear(f, 1) && Clear(f, 2) && Clear(f, 4)
    ensures Field(StickyStep(RlbStep(sec, recorded, v), v), f) == Field(sec, f)
  {
    hide Field, Clear, RlbStep, StickyStep;
    RlbField(sec, recorded, v, f);
    StickyField(RlbStep(sec, recorded, v), v, f);
  }

  /** MML (bit 0) and MMWP (bit 1) are set after a write of mseccfg if written or set before; RLB (bit 2) is as written unless
      it is clear and an entry is locked. */
  lemma SecLocks(m: Machine, sec: bv64, recorded: bool, v: bv64)
    ensures Field(NewSec(m, sec, recorded, v), 1) != 0 <==> Field(sec, 1) != 0 || Field(v, 1) != 0
    ensures Field(NewSec(m, sec, recorded, v), 2) != 0 <==> Field(sec, 2) != 0 || Field(v, 2) != 0
    ensures Field(NewSec(m, sec, recorded, v), 4) == if recorded && Field(sec, 4) == 0 then 0 else Field(v, 4)
  {
    hide Field, NewSec, Clear, RlbStep, StickyStep;
    FieldsApart(1);
    FieldsApart(2);
    FieldsApart(4);
    SecEarly(m, sec, recorded, v, 1);
    SecEarly(m, sec, recorded, v, 2);
    SecEarly(m, sec, recorded, v, 4);
    RlbField(sec, recorded, v, 1);
    RlbField(sec, recorded, v, 2);
    RlbField(sec, recorded, v, 4);
    StickyField(RlbStep(sec, recorded, v), v, 1);
    StickyField(RlbStep(sec, recorded, v), v, 2);
    StickyField(RlbStep(sec, recorded, v), v, 4);
  }

  /** The fields of the extensions that are there are as written, the reserved masking mode as zero; all others stay. */
  lemma SecOthers(m: Machine, sec: bv64, recorded: bool, v: bv64)
    ensures Field(NewSec(m, sec, recorded, v), 0x300) == if m.zkr then Field(v, 0x300) else Field(sec, 0x300)
    ensures Field(NewSec(m, sec, recorded, v), 0x400) == if m.zicfilp then Field(v, 0x400) else Field(sec, 0x400)
    ensures Field(NewSec(m, sec, recorded, v), 0x3_0000_0000)
            == if !m.smmpm then Field(sec, 0x3_0000_0000)
               else if Field(v, 0x3_0000_0000) == 0x1_0000_0000 then 0 else Field(v, 0x3_0000_0000)
    ensures Field(NewSec(m, sec, recorded, v), 0xFFFF_FFFC_FFFF_F8F8) == Field(sec, 0xFFFF_FFFC_FFFF_F8F8)
  {
    hide Field, NewSec, Clear, RlbStep, StickyStep, ReplaceStep, ModeAsked;
    FieldsApart(0x300);
    FieldsApart(0x400);
    FieldsApart(0x3_0000_0000);
    FieldsApart(0xFFFF_FFFC_FFFF_F8F8);
    SecOther(m, sec, recorded, v, 0x300);
    SecOther(m, sec, recorded, v, 0x400);
    SecOther(m, sec, recorded, v, 0x3_0000_0000);
    SecOther(m, sec, recorded, v, 0xFFFF_FFFC_FFFF_F8F8);
    ModeField(v);
  }

  lemma SecOther(m: Machine, sec: bv64, recorded: bool, v: bv64, f: bv64)
    requires Clear(f, 1) && Clear(f, 2) && Clear(f, 4)
    requires (f == 0x300 || Clear(f, 0x300)) && (f == 0x400 || Clear(f, 0x400)) && (f == 0x3_0000_0000 || Clear(f, 0x3_0000_0000))
    ensures Field(NewSec(m, sec, recorded, v), f) ==
            if f == 0x300 && m.zkr then Field(v, f)
            else if f == 0x400 && m.zicfilp then Field(v, f)
            else if f == 0x3_0000_0000 && m.smmpm then Field(ModeAsked(v), f)
            else Field(sec, f)
  {
    hide Field, NewSec, Clear, RlbStep, StickyStep, ReplaceStep, ModeAsked;
    SecSteps(m, sec, recorded, v);
    SecLate(sec, recorded, v, f);
    var b := StickyStep(RlbStep(sec, recorded, v), v);
    var c := ReplaceStep(m.zkr, b, 0x300, v);
    ReplaceField(m.zkr, b, 0x300, v, f);
    var d := ReplaceStep(m.zicfilp, c, 0x400, v);
    ReplaceField(m.zicfilp, c, 0x400, v, f);
    ReplaceField(m.smmpm, d, 0x3_0000_0000, ModeAsked(v), f);
    if f == 0x300 { FieldsApart(0x300); }
    if f == 0x400 { FieldsApart(0x400); }
    if f == 0x3_0000_0000 { FieldsApart(0x3_0000_0000); }
  }

  /** The fields that a write concerns do not overlap. */
  lemma FieldsApart(f: bv64)
    requires f == 1 || f == 2 || f == 4 || f == 0x300 || f == 0x400 || f == 0x3_0000_0000 || f == 0xFFFF_FFFC_FFFF_F8F8
    ensures f != 1 ==> Clear(f, 1)
    ensures f != 2 ==> Clear(f, 2)
    ensures f != 4 ==> Clear(f, 4)
    ensures f != 0x300 ==> Clear(f, 0x300)
    ensures f != 0x400 ==> Clear(f, 0x400)
    ensures f != 0x3_0000_0000 ==> Clear(f, 0x3_0000_0000)
  {
  }

  lemma ZeroField(f: bv64)
    ensures Field(0, f) == 0
  {
  }

  // ----- the registers

  class Registers {
    const m: Machine
    const val: array<bv64>
    const cfg: array<bv8>
    var sec: bv64

    ghost predicate Ok()
      reads this
    {
      MachineOk(m) && val.Length == MAX_PMP && cfg.Length == MAX_PMP
    }

    ghost function State(): (s: Csrs)
      requires Ok()
      reads this, val, cfg
      ensures CsrsOk(s)
    {
      Csrs(val[..], cfg[..], sec)
    }

    constructor (m: Machine)
      requires MachineOk(m)
      ensures Ok() && fresh(val) && fresh(cfg) && this.m == m
      ensures forall i | 0 <= i < MAX_PMP :: State().val[i] == 0 && State().cfg[i] == 0
      ensures State().sec == 0
    {
      this.m := m;
      val := new bv64[MAX_PMP](_ => 0);
      cfg := new bv8[MAX_PMP](_ => 0);
      sec := 0;
    }

    method WriteAddr(i: nat, v: bv64) returns (written: bool)
      requires Ok() && i < MAX_PMP
      modifies val
      ensures State() == AfterAddr(m, old(State()), i, v)
      ensures written <==> AddrWritable(m, old(State()), i)
    {
      if m.entries == 0 {
        return false;
      }
      var lockBypass := sec & RLB != 0;
      var locked := !lockBypass && cfg[i] & L != 0;
      var nextLockedAndTor := i + 1 < MAX_PMP && !lockBypass && cfg[i + 1] & L != 0 && cfg[i + 1] & A == TOR;
      if i < m.entries && !locked && !nextLockedAndTor {
        val[i] := v & PADDR_MASK;
        return true;
      }
      return false;
    }

    method WriteCfg(csr: nat, v: bv64) returns (written: bool)
      requires Ok()
      modifies cfg
      ensures State() == AfterCfg(m, old(State()), csr, v)
      ensures written <==> exists i :: Held(m, csr, i)
    {
      hide Asked, MachineExecutable, Byte;
      written := false;
      if m.entries == 0 {
        assert State().cfg == AfterCfg(m, old(State()), csr, v).cfg;
        return;
      }
      var rlb, mml := sec & RLB != 0, sec & MML != 0;
      for i := csr * 4 to csr * 4 + (if m.xlen64 then 8 else 4)
        invariant written <==> csr * 4 < i && csr * 4 < m.entries
        invariant forall j | 0 <= j < MAX_PMP ::
          cfg[j] == if j < i && Held(m, csr, j) then NewCfg(m, rlb, mml, old(cfg[j]), Byte(v, j - csr * 4)) else old(cfg[j])
      {
        if i < m.entries {
          var locked := cfg[i] & L != 0;
          if rlb || !locked {
            var c := Asked(m, mml, Byte(v, i - csr * 4));
            if rlb || !(mml && MachineExecutable(c)) {
              cfg[i] := c;
            }
          }
          written := true;
        }
      }
      assert State().cfg == AfterCfg(m, old(State()), csr, v).cfg;
      if csr * 4 < m.entries { assert Held(m, csr, csr * 4); }
    }

    method WriteSec(v: bv64) returns (written: bool)
      requires Ok()
      modifies this`sec
      ensures State() == AfterSec(m, old(State()), v)
      ensures written <==> m.entries > 0
    {
      hide NewSec;
      if m.entries == 0 {
        return false;
      }
      var recorded := AnyLocked();
      sec := Merge(m, sec, recorded, v);
      return true;
    }

    /** The search of mseccfg_csr_t::unlogged_write. */
    method AnyLocked() returns (b: bool)
      requires Ok()
      ensures b <==> LockRecorded(m, State())
    {
      for i := 0 to m.entries
        invariant forall j | 0 <= j < i :: !Locked(cfg[j])
      {
        if Locked(cfg[i]) {
          assert Locked(State().cfg[i]);
          return true;
        }
      }
      return false;
    }
  }

  // ----- runs

  datatype Write = Addr(i: nat, v: bv64) | Cfg(csr: nat, v: bv64) | Sec(v: bv64)

  function Step(m: Machine, s: Csrs, w: Write): (r: Csrs)
    requires CsrsOk(s)
    ensures CsrsOk(r)
  {
    match w
    case Addr(i, v) => if i < MAX_PMP then AfterAddr(m, s, i, v) else s
    case Cfg(csr, v) => AfterCfg(m, s, csr, v)
    case Sec(v) => AfterSec(m, s, v)
  }

  function Run(m: Machine, s: Csrs, ws: seq<Write>): (r: Csrs)
    requires CsrsOk(s)
    ensures CsrsOk(r)
    decreases |ws|
  {
    if ws == [] then s else Run(m, Step(m, s, ws[0]), ws[1..])
  }

  /** What decides which addresses entry `i` matches. */
  predicate SameRegion(s: Csrs, r: Csrs, i: nat)
    requires CsrsOk(s) && CsrsOk(r) && i < MAX_PMP
  {
    s.cfg[i] == r.cfg[i] && s.val[i] == r.val[i] && (i > 0 && s.cfg[i] & A == TOR ==> s.val[i - 1] == r.val[i - 1])
  }

  lemma SameRegionMatches(m: Machine, s: Csrs, r: Csrs, i: nat, a: bv64)
    requires CsrsOk(s) && CsrsOk(r) && i < MAX_PMP && SameRegion(s, r, i)
    ensures Match4(m, s, i, a) <==> Match4(m, r, i, a)
  {
    hide TopOf, NapotMask, Below, Covered;
  }

  /** An entry is locked and the locks are not bypassed. */
  predicate LockedIn(m: Machine, s: Csrs, i: nat)
    requires CsrsOk(s)
  {
    i < m.entries && i < MAX_PMP && Locked(s.cfg[i]) && !Rlb(s)
  }

  lemma ReplaceElsewhere(w: bv64, mask: bv64, v: bv64, bit: bv64)
    requires mask & bit == 0
    ensures Replace(w, mask, v) & bit == w & bit
  {
  }

  lemma ReplaceThere(w: bv64, mask: bv64, v: bv64)
    ensures Replace(w, mask, v) & mask == v & mask
  {
  }

  lemma SetAlsoElsewhere(w: bv64, mask: bv64, v: bv64, bit: bv64)
    requires mask & bit == 0
    ensures SetAlso(w, mask, v) & bit == w & bit
  {
  }

  lemma SetAlsoKeeps(w: bv64, mask: bv64, v: bv64)
    ensures w & mask != 0 ==> SetAlso(w, mask, v) & mask != 0
  {
  }

  /** The fields that do not concern protection leave these bits alone. */
  lemma LaterFields(m: Machine, b: bv64, v: bv64, bit: bv64)
    requires bit == RLB || bit == MML || bit == MMWP
    ensures var c := if m.zkr then Replace(b, USEED | SSEED, v) else b;
            var d := if m.zicfilp then Replace(c, MLPE, v) else c;
            (if m.smmpm then Replace(d, PMM, if v & PMM != PMM_RESERVED then v else 0) else d) & bit == b & bit
  {
    hide Replace;
    var c := if m.zkr then Replace(b, USEED | SSEED, v) else b;
    var d := if m.zicfilp then Replace(c, MLPE, v) else c;
    ReplaceElsewhere(b, USEED | SSEED, v, bit);
    ReplaceElsewhere(c, MLPE, v, bit);
    ReplaceElsewhere(d, PMM, if v & PMM != PMM_RESERVED then v else 0, bit);
  }

  lemma RlbBit(m: Machine, sec: bv64, recorded: bool, v: bv64)
    ensures NewSec(m, sec, recorded, v) & RLB == (if recorded && sec & RLB == 0 then 0 else v & RLB)
  {
    hide Replace, SetAlso;
    var a := if recorded && sec & RLB == 0 then sec else Replace(sec, RLB, v);
    ReplaceThere(sec, RLB, v);
    SetAlsoElsewhere(a, MMWP, v, RLB);
    SetAlsoElsewhere(SetAlso(a, MMWP, v), MML, v, RLB);
    LaterFields(m, SetAlso(SetAlso(a, MMWP, v), MML, v), v, RLB);
  }

  lemma StickyBits(m: Machine, sec: bv64, recorded: bool, v: bv64)
    ensures sec & MML != 0 ==> NewSec(m, sec, recorded, v) & MML != 0
    ensures sec & MMWP != 0 ==> NewSec(m, sec, recorded, v) & MMWP != 0
  {
    hide Replace, SetAlso;
    var a := if recorded && sec & RLB == 0 then sec else Replace(sec, RLB, v);
    var b := SetAlso(a, MMWP, v);
    ReplaceElsewhere(sec, RLB, v, MML);
    ReplaceElsewhere(sec, RLB, v, MMWP);
    SetAlsoElsewhere(a, MMWP, v, MML);
    SetAlsoKeeps(a, MMWP, v);
    SetAlsoKeeps(b, MML, v);
    SetAlsoElsewhere(b, MML, v, MMWP);
    LaterFields(m, SetAlso(b, MML, v), v, MML);
    LaterFields(m, SetAlso(b, MML, v), v, MMWP);
  }

  /** MML and MMWP are sticky. */
  lemma Sticky(m: Machine, s: Csrs, w: Write)
    requires CsrsOk(s)
    ensures Mml(s) ==> Mml(Step(m, s, w))
    ensures Mmwp(s) ==> Mmwp(Step(m, s, w))
  {
    hide NewSec;
    if w.Sec? { StickyBits(m, s.sec, LockRecorded(m, s), w.v); }
  }

  lemma StepKeepsLock(m: Machine, s: Csrs, w: Write, i: nat)
    requires CsrsOk(s) && LockedIn(m, s, i)
    ensures var r := Step(m, s, w); LockedIn(m, r, i) && SameRegion(s, r, i)
  {
    hide NewSec, Asked, Byte, MachineExecutable;
    if w.Sec? {
      assert LockRecorded(m, s);
      RlbBit(m, s.sec, true, w.v);
    }
  }

  /** Once an entry is locked with RLB clear, over every run of writes RLB stays clear, the entry stays
      locked with the same configuration, and it matches the same addresses. */
  lemma {:induction false} LockHolds(m: Machine, s: Csrs, ws: seq<Write>, i: nat, a: bv64)
    requires CsrsOk(s) && LockedIn(m, s, i)
    ensures var r := Run(m, s, ws);
            && !Rlb(r) && Locked(r.cfg[i]) && r.cfg[i] == s.cfg[i]
            && (Match4(m, r, i, a) <==> Match4(m, s, i, a))
    decreases |ws|
  {
    hide Match4, Step, Rlb, Locked;
    if ws != [] {
      var n := Step(m, s, ws[0]);
      StepKeepsLock(m, s, ws[0], i);
      SameRegionMatches(m, s, n, i, a);
      LockHolds(m, n, ws[1..], i, a);
    }
  }

  lemma {:induction false} RunSticky(m: Machine, s: Csrs, ws: seq<Write>)
    requires CsrsOk(s)
    ensures Mml(s) ==> Mml(Run(m, s, ws))
    ensures Mmwp(s) ==> Mmwp(Run(m, s, ws))
    decreases |ws|
  {
    hide Step, Mml, Mmwp;
    if ws != [] {
      Sticky(m, s, ws[0]);
      RunSticky(m, Step(m, s, ws[0]), ws[1..]);
    }
  }

  lemma SectorsHold(m: Machine, s: Csrs, ws: seq<Write>, i: nat, addr: bv64, len: nat)
    requires CsrsOk(s) && LockedIn(m, s, i) && len <= 0x1_0000_0000_0000_0000
    ensures AnyMatch(m, Run(m, s, ws), i, addr, len) <==> AnyMatch(m, s, i, addr, len)
    ensures AllMatch(m, Run(m, s, ws), i, addr, len) <==> AllMatch(m, s, i, addr, len)
  {
    hide Match4, Run, Locked, Rlb, SectorAt;
    forall o: nat | o < len && Sector(o, len)
      ensures SectorMatch(m, Run(m, s, ws), i, addr, o) <==> SectorMatch(m, s, i, addr, o)
    {
      LockHolds(m, s, ws, i, SectorAt(addr, o));
    }
  }

  /** With MML set and RLB clear, when the entries up to `k` are locked and entry `k` matches some sector of
      an access, no run of writes changes the answer of pmp_ok for that access. */
  lemma {:induction false} LockedPrefixDecides(m: Machine, s: Csrs, ws: seq<Write>, i: nat, k: nat,
                                               addr: bv64, len: nat, t: AccessType, machine: bool, hlvx: bool)
    requires MachineOk(m) && CsrsOk(s) && Mml(s) && i <= k < m.entries && len <= 0x1_0000_0000_0000_0000
    requires (forall j: nat | j <= k :: LockedIn(m, s, j)) && AnyMatch(m, s, k, addr, len)
    ensures OkFrom(m, Run(m, s, ws), i, addr, len, t, machine, hlvx) <==> OkFrom(m, s, i, addr, len, t, machine, hlvx)
    decreases k - i
  {
    hide PowerOfTwo, Match4, AccessOk, AnyMatch, AllMatch, Mml, Mmwp, Run, Locked, Rlb;
    RunSticky(m, s, ws);
    SectorsHold(m, s, ws, i, addr, len);
    LockHolds(m, s, ws, i, addr);
    if i < k {
      LockedPrefixDecides(m, s, ws, i + 1, k, addr, len, t, machine, hlvx);
    }
  }

  /** RLB can be set again exactly when no entry is locked. */
  lemma RlbExact(m: Machine, s: Csrs)
    requires CsrsOk(s) && m.entries > 0 && !Rlb(s)
    ensures (exists v :: Rlb(AfterSec(m, s, v))) <==> !LockRecorded(m, s)
  {
    hide NewSec;
    forall v ensures LockRecorded(m, s) ==> !Rlb(AfterSec(m, s, v)) {
      RlbBit(m, s.sec, LockRecorded(m, s), v);
    }
    if !LockRecorded(m, s) {
      RlbBit(m, s.sec, false, RLB);
      assert Rlb(AfterSec(m, s, RLB));
    }
  }

  // ----- M-mode execution

  /** Entry `i` lets M-mode execute at `a`. */
  predicate Grants(m: Machine, s: Csrs, i: nat, a: bv64)
    requires CsrsOk(s) && i < MAX_PMP
  {
    Match4(m, s, i, a) && AccessOk(s.cfg[i], Mml(s), Fetch, true, false)
  }

  /** With MML set, the rules that grant M-mode execution are exactly those that a write may not add. */
  lemma ExecutableGrants(cfg: bv8)
    ensures AccessOk(cfg, true, Fetch, true, false) <==> MachineExecutable(cfg)
  {
  }

  lemma StepKeepsGrants(m: Machine, s: Csrs, w: Write, j: nat, i: nat, a: bv64)
    requires CsrsOk(s) && Mml(s) && LockedIn(m, s, j) && i < m.entries && i < MAX_PMP
    ensures Mml(Step(m, s, w)) && LockedIn(m, Step(m, s, w), j)
    ensures Grants(m, Step(m, s, w), i, a) <==> Grants(m, s, i, a)
  {
    hide NewSec, Asked, Byte, AccessOk, Match4, MachineExecutable;
    var r := Step(m, s, w);
    Sticky(m, s, w);
    StepKeepsLock(m, s, w, j);
    ExecutableGrants(s.cfg[i]);
    ExecutableGrants(r.cfg[i]);
    ExecutableLocked(s.cfg[i]);
    if Locked(s.cfg[i]) {
      StepKeepsLock(m, s, w, i);
      SameRegionMatches(m, s, r, i, a);
    }
  }

  lemma ExecutableLocked(cfg: bv8)
    ensures MachineExecutable(cfg) ==> Locked(cfg)
  {
  }

  /** With MML set, RLB clear and any entry locked, no run of writes changes which entries let M-mode
      execute at which addresses. */
  lemma {:induction false} ExecutionFixed(m: Machine, s: Csrs, ws: seq<Write>, j: nat, i: nat, a: bv64)
    requires CsrsOk(s) && Mml(s) && LockedIn(m, s, j) && i < m.entries && i < MAX_PMP
    ensures Grants(m, Run(m, s, ws), i, a) <==> Grants(m, s, i, a)
    decreases |ws|
  {
    hide Step, Grants, Mml, LockedIn;
    if ws != [] {
      StepKeepsGrants(m, s, ws[0], j, i, a);
      ExecutionFixed(m, Step(m, s, ws[0]), ws[1..], j, i, a);
    }
  }
}
