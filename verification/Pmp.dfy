/** Physical memory protection (riscv/csrs.cc, riscv/mmu.cc): address matching on 64-bit words, the locking
    rules of the configuration registers over all runs of writes, and what makes an answer cacheable.
    Section 3.7 of the RISC-V Privileged Architecture (version 20211203) and the Smepmp extension. */
module Pmp {
  import opened Words

  const MAX_PMP: nat := 64
  const R: bv8 := 0x01
  const W: bv8 := 0x02
  const X: bv8 := 0x04
  const A: bv8 := 0x18
  const L: bv8 := 0x80
  const TOR: bv8 := 0x08
  const NA4: bv8 := 0x10
  const NAPOT: bv8 := 0x18
  const MML: bv64 := 0x1
  const MMWP: bv64 := 0x2
  const RLB: bv64 := 0x4
  const USEED: bv64 := 0x100
  const SSEED: bv64 := 0x200
  const MLPE: bv64 := 0x400
  const PMM: bv64 := 0x3_0000_0000
  const PMM_RESERVED: bv64 := 0x1_0000_0000
  const PADDR_MASK: bv64 := 0x3FFF_FFFF_FFFF_FFFF

  /** What stays fixed: how many entries there are, the granularity, the width of the machine and its extensions. */
  datatype Machine = Machine(entries: nat, torMask: bv64, xlen64: bool, zkr: bool, zicfilp: bool, smmpm: bool)

  /** pmp_tor_mask() is minus a power of two. */
  predicate MachineOk(m: Machine) {
    m.entries <= MAX_PMP && PowerOfTwo(-m.torMask)
  }

  /** The registers: address and configuration of every entry, and mseccfg. */
  datatype Csrs = Csrs(val: seq<bv64>, cfg: seq<bv8>, sec: bv64)

  predicate CsrsOk(s: Csrs) {
    |s.val| == MAX_PMP && |s.cfg| == MAX_PMP
  }

  predicate Rlb(s: Csrs) { s.sec & RLB != 0 }
  predicate Mml(s: Csrs) { s.sec & MML != 0 }
  predicate Mmwp(s: Csrs) { s.sec & MMWP != 0 }

  predicate Locked(cfg: bv8) { cfg & L != 0 }

  // ----- one region

  function TopOf(torMask: bv64, val: bv64): (t: bv64) {
    (val & torMask) << 2
  }

  /** tor_paddr */
  function TorPaddr(m: Machine, s: Csrs, i: nat): (t: bv64)
    requires CsrsOk(s) && i < MAX_PMP
  {
    TopOf(m.torMask, s.val[i])
  }

  /** tor_base_paddr */
  function TorBase(m: Machine, s: Csrs, i: nat): (b: bv64)
    requires CsrsOk(s) && i < MAX_PMP
  {
    if i == 0 then 0 else TorPaddr(m, s, i - 1)
  }

  /** napot_mask */
  function NapotMask(torMask: bv64, val: bv64, cfg: bv8): (n: bv64) {
    var mask := (val << 1) | (if cfg & A == NA4 then 0 else 1) | !torMask;
    !(mask & !(mask + 1)) << 2
  }

  /** The address has the bits of a naturally aligned region that the mask keeps. */
  predicate Covered(mask: bv64, top: bv64, addr: bv64) {
    (addr ^ top) & mask == 0
  }

  predicate Matches(cfg: bv8, base: bv64, top: bv64, mask: bv64, addr: bv64) {
    if cfg & A == 0 then false
    else if cfg & A == TOR then !Below(addr, base) && Below(addr, top)
    else Covered(mask, top, addr)
  }

  /** match4 */
  predicate Match4(m: Machine, s: Csrs, i: nat, addr: bv64)
    requires CsrsOk(s) && i < MAX_PMP
  {
    Matches(s.cfg[i], TorBase(m, s, i), TorPaddr(m, s, i), NapotMask(m.torMask, s.val[i], s.cfg[i]), addr)
  }

  /** The region of a mask is at least as large as a block. */
  predicate Spans(mask: bv64, len: bv64) {
    !(mask << 1) & len != 0
  }

  /** The source tests that the quotient by `len` is not zero, which is to say that the dividend is not smaller. */
  predicate Apart(addr: bv64, top: bv64, len: bv64) {
    !Below(addr ^ top, len)
  }

  /** The result of subset_match for a region given by its bounds and mask. */
  predicate Splits(cfg: bv8, base: bv64, top: bv64, mask: bv64, addr: bv64, len: bv64) {
    if cfg & A == 0 then false
    else if cfg & A == TOR then
      var beginsAfterLower := !Below(addr, base);
      var beginsAfterUpper := !Below(addr, top);
      var endsBeforeLower := Below(Floor(addr, len), Floor(base, len));
      var endsBeforeUpper := Below(Floor(addr, len), Floor(top, len));
      !(endsBeforeLower || beginsAfterUpper || (beginsAfterLower && endsBeforeUpper))
    else !(Spans(mask, len) || Apart(addr, top, len))
  }

  /** subset_match */
  predicate SubsetMatch(m: Machine, s: Csrs, i: nat, addr: bv64, len: bv64)
    requires CsrsOk(s) && i < MAX_PMP
  {
    Splits(s.cfg[i], TorBase(m, s, i), TorPaddr(m, s, i), NapotMask(m.torMask, s.val[i], s.cfg[i]), addr, len)
  }

  // ----- facts about words

  lemma MaskShape(torMask: bv64, val: bv64, cfg: bv8)
    requires PowerOfTwo(-torMask)
    ensures MaskOk(NapotMask(torMask, val, cfg))
  {
    MaskWord((val << 1) | (if cfg & A == NA4 then 0 else 1) | !torMask);
  }

  predicate MaskOk(mask: bv64) {
    mask == 0 || PowerOfTwo(-mask)
  }

  lemma MaskWord(m: bv64)
    ensures MaskOk(!(m & !(m + 1)) << 2)
  {
  }

  lemma SpanningMask(len: bv64, mask: bv64)
    requires PowerOfTwo(len) && PowerOfTwo(-mask) && !(mask << 1) & len != 0
    ensures mask & -len == mask
  {
  }

  lemma MaskFloor(a: bv64, addr: bv64, len: bv64, top: bv64, mask: bv64)
    requires a & -len == addr && mask & -len == mask
    ensures (a ^ top) & mask == (addr ^ top) & mask
  {
  }

  lemma SpansAgree(addr: bv64, len: bv64, mask: bv64, top: bv64, a: bv64)
    requires Block(addr, len) && InBlock(a, addr, len) && MaskOk(mask) && Spans(mask, len)
    ensures Covered(mask, top, a) <==> Covered(mask, top, addr)
  {
    if mask != 0 {
      SpanningMask(len, mask);
    }
    MaskFloor(a, addr, len, top, mask);
  }

  lemma InsideDiffers(addr: bv64, len: bv64, top: bv64)
    requires PowerOfTwo(len) && addr & (len - 1) == 0 && top & -len == addr
    ensures addr ^ top == top & (len - 1)
  {
  }

  lemma LowBitsBelow(top: bv64, len: bv64)
    requires PowerOfTwo(len)
    ensures Below(top & (len - 1), len)
  {
  }

  lemma OutsideDiffers(addr: bv64, len: bv64, top: bv64)
    requires PowerOfTwo(len) && addr & (len - 1) == 0 && Below(addr ^ top, len)
    ensures top & -len == addr
  {
    hide *;
    BelowPower(addr ^ top, len);
    SameAbove(addr, top, len);
    NothingBelow(addr, len);
  }

  lemma BelowPower(x: bv64, len: bv64)
    requires PowerOfTwo(len) && Below(x, len)
    ensures x & -len == 0
  {
  }

  lemma SameAbove(a: bv64, b: bv64, len: bv64)
    requires (a ^ b) & -len == 0
    ensures a & -len == b & -len
  {
  }

  lemma NothingBelow(a: bv64, len: bv64)
    requires a & (len - 1) == 0
    ensures a & -len == a
  {
  }

  lemma ApartIsOutside(addr: bv64, len: bv64, top: bv64)
    requires Block(addr, len)
    ensures Apart(addr, top, len) <==> !InBlock(top, addr, len)
  {
    hide Below, PowerOfTwo;
    if InBlock(top, addr, len) {
      InsideDiffers(addr, len, top);
      LowBitsBelow(top, len);
    }
    if !Apart(addr, top, len) {
      OutsideDiffers(addr, len, top);
    }
  }

  lemma NarrowMask(len: bv64, mask: bv64)
    requires PowerOfTwo(len) && MaskOk(mask) && !Spans(mask, len)
    ensures mask & -len == -len
  {
  }

  lemma FloorsDiffer(a: bv64, addr: bv64, len: bv64, top: bv64, mask: bv64)
    requires a & -len == addr && top & -len != addr && mask & -len == -len
    ensures (a ^ top) & mask != 0
  {
  }

  lemma SmallMaskOutside(addr: bv64, len: bv64, mask: bv64, top: bv64, a: bv64)
    requires PowerOfTwo(len) && InBlock(a, addr, len) && !InBlock(top, addr, len) && MaskOk(mask) && !Spans(mask, len)
    ensures !Covered(mask, top, a)
  {
    NarrowMask(len, mask);
    FloorsDiffer(a, addr, len, top, mask);
  }

  lemma SmallMaskInside(addr: bv64, len: bv64, mask: bv64, top: bv64)
    requires Block(addr, len) && InBlock(top, addr, len) && MaskOk(mask) && !Spans(mask, len)
    ensures InBlock(top ^ -mask, addr, len) && !Covered(mask, top, top ^ -mask) && Covered(mask, top, top)
  {
  }

  // ----- the addresses of a region

  function Twice(p: bv64): (r: bv64) { p + p }

  /** The bytes of the region of an address register that ends in a zero and then in the ones below p. */
  function SizeOf(p: bv64): (r: bv64) { 8 * p }

  function InBytes(words: bv64): (r: bv64) { words << 2 }

  /** An address register with the ones that the granularity adds. */
  function WithOnes(torMask: bv64, val: bv64): (w: bv64) {
    val | (!torMask >> 1)
  }

  predicate EndsInOnes(w: bv64, p: bv64) {
    PowerOfTwo(p) && p <= 0x1000_0000_0000_0000 && w & (p + p - 1) == p - 1
  }

  function OneBehind(w: bv64): (x: bv64) { (w << 1) | 1 }

  /** The ones at the end of a word. */
  function LastOnes(x: bv64): (y: bv64) { x & !(x + 1) }

  function Complement(y: bv64): (n: bv64) { !y << 2 }

  function Minus(x: bv64): (y: bv64) { -x }

  function Added(torMask: bv64): (lo: bv64) { !torMask }

  function Halved(lo: bv64): (h: bv64) { lo >> 1 }

  lemma NapotMaskParts(torMask: bv64, val: bv64, cfg: bv8)
    requires PowerOfTwo(-torMask) && cfg & 0x18 == 0x18
    ensures NapotMask(torMask, val, cfg) == Complement(LastOnes(OneBehind(WithOnes(torMask, val))))
  {
    assert (val << 1) | 1 | !torMask == OneBehind(WithOnes(torMask, val));
  }

  lemma TrailingOnes(w: bv64, p: bv64)
    requires EndsInOnes(w, p)
    ensures LastOnes(OneBehind(w)) == Twice(p) - 1
  {
  }

  lemma ComplementOnes(p: bv64)
    requires p <= 0x1000_0000_0000_0000
    ensures Complement(Twice(p) - 1) == Minus(SizeOf(p))
  {
  }

  lemma NapotMaskIs(torMask: bv64, val: bv64, cfg: bv8, p: bv64)
    requires PowerOfTwo(Minus(torMask)) && cfg & 0x18 == 0x18 && p <= 0x1000_0000_0000_0000 && EndsInOnes(WithOnes(torMask, val), p)
    ensures NapotMask(torMask, val, cfg) == Minus(SizeOf(p))
  {
    hide PowerOfTwo, NapotMask, Complement, LastOnes, OneBehind, WithOnes, EndsInOnes, Twice, SizeOf;
    NapotMaskParts(torMask, val, cfg);
    TrailingOnes(WithOnes(torMask, val), p);
    ComplementOnes(p);
  }

  function Both(x: bv64, y: bv64): (z: bv64) { x & y }

  function OneOf(x: bv64, y: bv64): (z: bv64) { x ^ y }

  lemma SameKept(a: bv64, b: bv64, mask: bv64)
    requires Both(a, mask) == Both(b, mask)
    ensures Both(OneOf(a, b), mask) == 0
  {
  }

  lemma KeptSame(a: bv64, b: bv64, mask: bv64)
    requires Both(OneOf(a, b), mask) == 0
    ensures Both(a, mask) == Both(b, mask)
  {
  }

  lemma CoveredIs(mask: bv64, top: bv64, a: bv64)
    ensures Covered(mask, top, a) <==> Both(OneOf(a, top), mask) == 0
  {
  }

  lemma FloorIs(x: bv64, len: bv64)
    ensures Floor(x, len) == Both(x, Minus(len))
  {
  }

  lemma InBlockIs(a: bv64, base: bv64, len: bv64)
    ensures InBlock(a, base, len) <==> Floor(a, len) == base
  {
  }

  lemma CoveredInBlock(a: bv64, top: bv64, len: bv64)
    ensures Covered(Minus(len), top, a) <==> InBlock(a, Floor(top, len), len)
  {
    hide Covered, Minus, Both, OneOf, InBlock, Floor;
    CoveredIs(Minus(len), top, a);
    if Both(a, Minus(len)) == Both(top, Minus(len)) { SameKept(a, top, Minus(len)); }
    if Both(OneOf(a, top), Minus(len)) == 0 { KeptSame(a, top, Minus(len)); }
    FloorIs(a, len);
    FloorIs(top, len);
    InBlockIs(a, Floor(top, len), len);
  }

  predicate Lacks(x: bv64, p: bv64) { x & p == 0 }

  lemma OnesBelow(q: bv64, p: bv64)
    requires PowerOfTwo(q) && PowerOfTwo(p) && p <= 0x1000_0000_0000_0000 && Lacks(Halved(q - 1), p)
    ensures Floor(q - 1, Twice(p)) == 0
  {
  }

  lemma BitClear(torMask: bv64, val: bv64, p: bv64)
    requires EndsInOnes(WithOnes(torMask, val), p)
    ensures Lacks(Halved(Added(torMask)), p)
  {
  }

  lemma AddedIs(torMask: bv64)
    ensures Added(torMask) == Minus(torMask) - 1
  {
  }

  /** The ones that the granularity adds stay below the region. */
  lemma AddedBelow(torMask: bv64, val: bv64, p: bv64)
    requires PowerOfTwo(Minus(torMask)) && PowerOfTwo(p) && p <= 0x1000_0000_0000_0000 && EndsInOnes(WithOnes(torMask, val), p)
    ensures Floor(Added(torMask), Twice(p)) == 0
  {
    hide PowerOfTwo, Minus, Added, EndsInOnes, WithOnes, Floor, Twice, Lacks, Halved;
    BitClear(torMask, val, p);
    AddedIs(torMask);
    OnesBelow(Minus(torMask), p);
  }

  lemma HalfBelow(lo: bv64, p: bv64)
    requires PowerOfTwo(p) && p <= 0x1000_0000_0000_0000 && Floor(lo, Twice(p)) == 0
    ensures Floor(Halved(lo), Twice(p)) == 0
  {
  }

  lemma AndKeeps(torMask: bv64, val: bv64, len: bv64)
    requires Floor(Added(torMask), len) == 0
    ensures Floor(val & torMask, len) == Floor(val, len)
  {
  }

  lemma OrKeeps(torMask: bv64, val: bv64, len: bv64)
    requires Floor(Halved(Added(torMask)), len) == 0
    ensures Floor(WithOnes(torMask, val), len) == Floor(val, len)
  {
  }

  lemma FloorIgnores(torMask: bv64, val: bv64, p: bv64)
    requires PowerOfTwo(p) && p <= 0x1000_0000_0000_0000 && Floor(Added(torMask), Twice(p)) == 0
    ensures Floor(val & torMask, Twice(p)) == Floor(WithOnes(torMask, val), Twice(p))
  {
    hide PowerOfTwo, Added, WithOnes, Floor, Twice, Halved;
    HalfBelow(Added(torMask), p);
    AndKeeps(torMask, val, Twice(p));
    OrKeeps(torMask, val, Twice(p));
  }

  lemma NegatedInBytes(len: bv64)
    ensures Minus(InBytes(len)) == InBytes(Minus(len))
  {
  }

  lemma AndInBytes(x: bv64, mask: bv64)
    ensures Both(InBytes(x), InBytes(mask)) == InBytes(Both(x, mask))
  {
  }

  lemma SizeInBytes(p: bv64)
    ensures SizeOf(p) == InBytes(Twice(p))
  {
  }

  lemma FloorInBytes(x: bv64, p: bv64)
    ensures Floor(InBytes(x), SizeOf(p)) == InBytes(Floor(x, Twice(p)))
  {
    hide Floor, InBytes, SizeOf, Twice, Minus, Both;
    SizeInBytes(p);
    FloorIs(InBytes(x), SizeOf(p));
    NegatedInBytes(Twice(p));
    AndInBytes(x, Minus(Twice(p)));
    FloorIs(x, Twice(p));
  }

  lemma RegionTop(torMask: bv64, val: bv64, p: bv64)
    requires PowerOfTwo(Minus(torMask)) && PowerOfTwo(p) && p <= 0x1000_0000_0000_0000 && EndsInOnes(WithOnes(torMask, val), p)
    ensures Floor(TopOf(torMask, val), SizeOf(p)) == InBytes(Floor(WithOnes(torMask, val), Twice(p)))
  {
    hide PowerOfTwo, Minus, EndsInOnes, WithOnes, Floor, SizeOf, Twice, Added, InBytes, TopOf;
    AddedBelow(torMask, val, p);
    FloorIgnores(torMask, val, p);
    FloorInBytes(val & torMask, p);
    TopInBytes(torMask, val);
  }

  lemma TopInBytes(torMask: bv64, val: bv64)
    ensures TopOf(torMask, val) == InBytes(val & torMask)
  {
  }

  lemma GranularityOk(m: Machine)
    requires MachineOk(m)
    ensures PowerOfTwo(Minus(m.torMask))
  {
  }

  lemma Naturally(cfg: bv8, base: bv64, top: bv64, mask: bv64, a: bv64)
    requires cfg & 0x18 == 0x18
    ensures Matches(cfg, base, top, mask, a) <==> Covered(mask, top, a)
  {
  }

  lemma EndsBounded(w: bv64, p: bv64)
    requires EndsInOnes(w, p)
    ensures PowerOfTwo(p) && p <= 0x1000_0000_0000_0000
  {
  }

  /** A naturally aligned region: when the address register, with the ones that the granularity adds, ends in a zero and k
      ones, and p is 2^k, the region is the block of 8 * p bytes that the bits above them name. */
  lemma NapotRegion(m: Machine, s: Csrs, i: nat, p: bv64, a: bv64)
    requires MachineOk(m) && CsrsOk(s) && i < MAX_PMP && s.cfg[i] & 0x18 == 0x18
    requires EndsInOnes(WithOnes(m.torMask, s.val[i]), p)
    ensures Match4(m, s, i, a) <==> InBlock(a, InBytes(Floor(WithOnes(m.torMask, s.val[i]), Twice(p))), SizeOf(p))
  {
    hide MachineOk, PowerOfTwo, Minus, EndsInOnes, WithOnes, Floor, SizeOf, Twice, InBytes, TopOf, Covered, Matches, NapotMask, InBlock;
    GranularityOk(m);
    EndsBounded(WithOnes(m.torMask, s.val[i]), p);
    NapotMaskIs(m.torMask, s.val[i], s.cfg[i], p);
    RegionTop(m.torMask, s.val[i], p);
    CoveredInBlock(a, TopOf(m.torMask, s.val[i]), SizeOf(p));
    Naturally(s.cfg[i], TorBase(m, s, i), TorPaddr(m, s, i), NapotMask(m.torMask, s.val[i], s.cfg[i]), a);
  }

  /** The bounds of a range: the address of the entry before, or zero, and its own. */
  lemma Bounds(m: Machine, s: Csrs, i: nat)
    requires CsrsOk(s) && i < MAX_PMP
    ensures TorBase(m, s, i) == if i == 0 then 0 else (s.val[i - 1] & m.torMask) << 2
    ensures TorPaddr(m, s, i) == (s.val[i] & m.torMask) << 2
  {
  }

  /** An entry that is off matches nothing, and a range what lies from its lower bound up to its upper one. */
  lemma RangeRegion(m: Machine, s: Csrs, i: nat, a: bv64)
    requires CsrsOk(s) && i < MAX_PMP
    ensures s.cfg[i] & 0x18 == 0 ==> !Match4(m, s, i, a)
    ensures s.cfg[i] & 0x18 == 0x08 ==> (Match4(m, s, i, a) <==> TorBase(m, s, i) <= a && a < TorPaddr(m, s, i))
  {
    hide NapotMask, Covered, TorBase, TorPaddr;
  }

  lemma FourMask(val: bv64, cfg: bv8)
    requires cfg & 0x18 == 0x10
    ensures NapotMask(0xFFFF_FFFF_FFFF_FFFF, val, cfg) == Minus(4)
  {
  }

  lemma FourTop(val: bv64)
    ensures Floor(TopOf(0xFFFF_FFFF_FFFF_FFFF, val), 4) == InBytes(val)
  {
  }

  lemma FourMatches(cfg: bv8, base: bv64, top: bv64, mask: bv64, a: bv64)
    requires cfg & 0x18 == 0x10
    ensures Matches(cfg, base, top, mask, a) <==> Covered(mask, top, a)
  {
  }

  /** With the finest granularity there are regions of four bytes. */
  lemma FourByteRegion(m: Machine, s: Csrs, i: nat, a: bv64)
    requires CsrsOk(s) && i < MAX_PMP && s.cfg[i] & 0x18 == 0x10 && m.torMask == 0xFFFF_FFFF_FFFF_FFFF
    ensures Match4(m, s, i, a) <==> InBlock(a, InBytes(s.val[i]), 4)
  {
    hide Minus, Floor, InBytes, TopOf, Covered, Matches, NapotMask, InBlock;
    FourMask(s.val[i], s.cfg[i]);
    FourTop(s.val[i]);
    CoveredInBlock(a, TopOf(m.torMask, s.val[i]), 4);
    FourMatches(s.cfg[i], TorBase(m, s, i), TorPaddr(m, s, i), NapotMask(m.torMask, s.val[i], s.cfg[i]), a);
  }

  // ----- subset_match says exactly whether a block is split

  ghost predicate Disagree(cfg: bv8, base: bv64, top: bv64, mask: bv64, addr: bv64, len: bv64) {
    exists a, b ::
      InBlock(a, addr, len) && InBlock(b, addr, len) && Matches(cfg, base, top, mask, a) && !Matches(cfg, base, top, mask, b)
  }

  /** A top-of-range region that is empty, with both its bounds inside the block, the lower one above its start. */
  predicate EmptyInside(cfg: bv8, base: bv64, top: bv64, addr: bv64, len: bv64) {
    cfg & A == TOR && !Below(base, top) && Below(addr, top) && InBlock(base, addr, len)
  }

  lemma RangeNotSplit(base: bv64, top: bv64, addr: bv64, len: bv64, a: bv64)
    requires Block(addr, len) && InBlock(a, addr, len)
    requires Below(addr, Floor(base, len)) || !Below(addr, top) || (!Below(addr, base) && Below(addr, Floor(top, len)))
    ensures (!Below(a, base) && Below(a, top)) <==> (!Below(addr, base) && Below(addr, top))
  {
    hide *;
    BlockItself(addr, len);
    NotBeforeBlock(a, addr, len);
    if Below(addr, Floor(base, len)) {
      BelowBound(addr, len, base, a);
      BelowBound(addr, len, base, addr);
    } else if !Below(addr, top) {
      NotBelowBelow(top, addr, a);
    } else {
      NotBelowBelow(base, addr, a);
      BelowBound(addr, len, top, a);
      BelowBound(addr, len, top, addr);
    }
  }

  lemma NotSplit(cfg: bv8, base: bv64, top: bv64, mask: bv64, addr: bv64, len: bv64, a: bv64)
    requires Block(addr, len) && MaskOk(mask) && !Splits(cfg, base, top, mask, addr, len) && InBlock(a, addr, len)
    ensures Matches(cfg, base, top, mask, a) <==> Matches(cfg, base, top, mask, addr)
  {
    hide PowerOfTwo, Block, Floor, Spans, Apart, Covered, MaskOk, Below;
    BlockItself(addr, len);
    if cfg & A == TOR {
      RangeNotSplit(base, top, addr, len, a);
    } else if cfg & A != 0 {
      if Spans(mask, len) {
        SpansAgree(addr, len, mask, top, a);
      } else {
        ApartIsOutside(addr, len, top);
        SmallMaskOutside(addr, len, mask, top, a);
        SmallMaskOutside(addr, len, mask, top, addr);
      }
    }
  }

  lemma RangeSplit(base: bv64, top: bv64, addr: bv64, len: bv64) returns (a: bv64, b: bv64)
    requires Block(addr, len) && Below(base, top)
    requires !Below(addr, Floor(base, len)) && Below(addr, top) && (Below(addr, base) || !Below(addr, Floor(top, len)))
    ensures InBlock(a, addr, len) && !Below(a, base) && Below(a, top)
    ensures InBlock(b, addr, len) && !(!Below(b, base) && Below(b, top))
  {
    hide *;
    BlockItself(addr, len);
    Asymmetric(addr, base);
    Asymmetric(addr, top);
    if Below(addr, base) {
      BoundInside(addr, len, base);
      NotBelowBelow(base, base, base);
      a, b := base, addr;
    } else {
      BoundInside(addr, len, top);
      NotBelowBelow(top, top, top);
      a, b := addr, top;
    }
  }

  lemma Split(cfg: bv8, base: bv64, top: bv64, mask: bv64, addr: bv64, len: bv64)
    requires Block(addr, len) && MaskOk(mask) && Splits(cfg, base, top, mask, addr, len)
    ensures Disagree(cfg, base, top, mask, addr, len) || EmptyInside(cfg, base, top, addr, len)
  {
    hide PowerOfTwo, Block, Floor, Spans, Apart, Covered, MaskOk, Below;
    BlockItself(addr, len);
    if cfg & A != TOR {
      ApartIsOutside(addr, len, top);
      SmallMaskInside(addr, len, mask, top);
      assert Matches(cfg, base, top, mask, top) && !Matches(cfg, base, top, mask, top ^ -mask);
    } else if Below(base, top) {
      var a, b := RangeSplit(base, top, addr, len);
      assert Matches(cfg, base, top, mask, a) && !Matches(cfg, base, top, mask, b);
    } else {
      NotBelowBelow(addr, top, base);
      Asymmetric(addr, base);
      BoundInside(addr, len, base);
    }
  }

  lemma EmptyMatchesNothing(cfg: bv8, base: bv64, top: bv64, mask: bv64, addr: bv64, len: bv64, a: bv64)
    requires EmptyInside(cfg, base, top, addr, len)
    ensures !Matches(cfg, base, top, mask, a)
  {
    hide Floor, Covered, Below;
    NotBelowBelow(base, a, top);
  }

  lemma EmptySplits(cfg: bv8, base: bv64, top: bv64, mask: bv64, addr: bv64, len: bv64)
    requires Block(addr, len) && EmptyInside(cfg, base, top, addr, len)
    ensures Splits(cfg, base, top, mask, addr, len)
  {
    hide Block, PowerOfTwo, Floor, Spans, Apart, Covered, MaskOk, Below;
    BlockItself(addr, len);
    Asymmetric(addr, top);
    Asymmetric(addr, addr);
    Between(addr, len, top, base);
    NotBelowBelow(addr, top, base);
  }

  /** subset_match answers true exactly when two addresses of the block differ in whether the entry matches
      them, or when an empty top-of-range region has both its bounds inside the block. */
  lemma SubsetMatchExact(m: Machine, s: Csrs, i: nat, addr: bv64, len: bv64)
    requires MachineOk(m) && CsrsOk(s) && i < MAX_PMP && Block(addr, len)
    ensures SubsetMatch(m, s, i, addr, len) <==>
            (exists a, b :: InBlock(a, addr, len) && InBlock(b, addr, len) && Match4(m, s, i, a) && !Match4(m, s, i, b))
            || EmptyInside(s.cfg[i], TorBase(m, s, i), TorPaddr(m, s, i), addr, len)
    ensures EmptyInside(s.cfg[i], TorBase(m, s, i), TorPaddr(m, s, i), addr, len) ==> forall a :: !Match4(m, s, i, a)
  {
    hide PowerOfTwo, Block, InBlock, NapotMask, Matches, Splits, EmptyInside, MaskOk, TopOf;
    var cfg, base, top, mask := s.cfg[i], TorBase(m, s, i), TorPaddr(m, s, i), NapotMask(m.torMask, s.val[i], s.cfg[i]);
    MaskShape(m.torMask, s.val[i], cfg);
    if EmptyInside(cfg, base, top, addr, len) {
      forall a ensures !Match4(m, s, i, a) {
        EmptyMatchesNothing(cfg, base, top, mask, addr, len, a);
      }
    }
    if SubsetMatch(m, s, i, addr, len) {
      Split(cfg, base, top, mask, addr, len);
      if Disagree(cfg, base, top, mask, addr, len) {
        var a, b :| InBlock(a, addr, len) && InBlock(b, addr, len) && Matches(cfg, base, top, mask, a) && !Matches(cfg, base, top, mask, b);
        assert Match4(m, s, i, a) && !Match4(m, s, i, b);
      }
    } else {
      if EmptyInside(cfg, base, top, addr, len) {
        EmptySplits(cfg, base, top, mask, addr, len);
      }
      forall a | InBlock(a, addr, len) ensures Match4(m, s, i, a) <==> Match4(m, s, i, addr) {
        NotSplit(cfg, base, top, mask, addr, len, a);
      }
    }
  }

  /** Such a region: entry 1 reaches from address 4 up to address 4, and the block of eight bytes at 0 is said to be split
      though no address matches. */
  lemma EmptyRegionSplits()
    ensures var m := Machine(2, 0xFFFF_FFFF_FFFF_FFFF, true, false, false, false);
            var s := Csrs(seq(MAX_PMP, _ => 1), seq(MAX_PMP, _ => TOR), 0);
            && MachineOk(m) && CsrsOk(s) && Block(0, 8)
            && SubsetMatch(m, s, 1, 0, 8) && forall a :: !Match4(m, s, 1, a)
  {
    hide NapotMask;
    assert TopOf(0xFFFF_FFFF_FFFF_FFFF, 1) == 4;
  }

  // ----- permissions

  datatype AccessType = Load | Store | Fetch

  /** access_ok, for one configuration byte. */
  predicate AccessOk(cfg: bv8, mml: bool, t: AccessType, machine: bool, hlvx: bool) {
    var x, w, r, l := cfg & X != 0, cfg & W != 0, cfg & R != 0, cfg & L != 0;
    var normal := (t.Load? && r && (!hlvx || x)) || (t.Store? && w) || (t.Fetch? && x);
    if mml then
      if x && w && r && l then t.Load? && !hlvx
      else if !r && w then
        || (!l && x && ((t.Load? && !hlvx) || t.Store?))
        || (!l && !x && ((t.Load? && !hlvx) || (t.Store? && machine)))
        || (l && t.Fetch?)
        || (l && t.Load? && x && machine)
      else machine == l && normal
    else (machine && !l) || normal
  }

  /** The permissions, encoding by encoding. Without MML: an unlocked entry does not bind machine mode, and otherwise bit 0
      grants loads, bit 1 stores and bit 2 fetches, and loads for execution as well. With MML, from the bits L, X, W and R,
      the table of the Smepmp extension. */
  lemma PermissionTable(cfg: bv8, machine: bool, hlvx: bool)
    ensures AccessOk(cfg, false, Load, machine, hlvx) <==> (machine && cfg & 0x80 == 0) || (cfg & 0x01 != 0 && (!hlvx || cfg & 0x04 != 0))
    ensures AccessOk(cfg, false, Store, machine, hlvx) <==> (machine && cfg & 0x80 == 0) || cfg & 0x02 != 0
    ensures AccessOk(cfg, false, Fetch, machine, hlvx) <==> (machine && cfg & 0x80 == 0) || cfg & 0x04 != 0
    ensures var k := cfg & 0x87;
            AccessOk(cfg, true, Load, true, false)
            <==> k == 0x02 || k == 0x06 || k == 0x81 || k == 0x83 || k == 0x85 || k == 0x86 || k == 0x87
    ensures var k := cfg & 0x87; AccessOk(cfg, true, Store, true, hlvx) <==> k == 0x02 || k == 0x06 || k == 0x83
    ensures var k := cfg & 0x87; AccessOk(cfg, true, Fetch, true, hlvx) <==> k == 0x82 || k == 0x84 || k == 0x85 || k == 0x86
    ensures var k := cfg & 0x87;
            AccessOk(cfg, true, Load, false, false)
            <==> k == 0x01 || k == 0x02 || k == 0x03 || k == 0x05 || k == 0x06 || k == 0x07 || k == 0x87
    ensures var k := cfg & 0x87; AccessOk(cfg, true, Store, false, hlvx) <==> k == 0x03 || k == 0x06 || k == 0x07
    ensures var k := cfg & 0x87; AccessOk(cfg, true, Fetch, false, hlvx) <==> k == 0x04 || k == 0x05 || k == 0x07 || k == 0x82 || k == 0x86
    ensures var k := cfg & 0x87; AccessOk(cfg, true, Load, true, true) <==> k == 0x85 || k == 0x86
    ensures var k := cfg & 0x87; AccessOk(cfg, true, Load, false, true) <==> k == 0x05 || k == 0x07
  {
  }

  /** What the table says, for one encoding of the bits L, X, W and R. */
  ghost predicate Granted(k: bv8, mml: bool, t: AccessType, machine: bool) {
    if !mml then (machine && k & 0x80 == 0) || (t.Load? && k & 0x01 != 0) || (t.Store? && k & 0x02 != 0) || (t.Fetch? && k & 0x04 != 0)
    else if machine then
      if t.Load? then k == 0x02 || k == 0x06 || k == 0x81 || k == 0x83 || k == 0x85 || k == 0x86 || k == 0x87
      else if t.Store? then k == 0x02 || k == 0x06 || k == 0x83
      else k == 0x82 || k == 0x84 || k == 0x85 || k == 0x86
    else
      if t.Load? then k == 0x01 || k == 0x02 || k == 0x03 || k == 0x05 || k == 0x06 || k == 0x07 || k == 0x87
      else if t.Store? then k == 0x03 || k == 0x06 || k == 0x07
      else k == 0x04 || k == 0x05 || k == 0x07 || k == 0x82 || k == 0x86
  }

  lemma GrantedExact(cfg: bv8, mml: bool, t: AccessType, machine: bool)
    ensures AccessOk(cfg, mml, t, machine, false) <==> Granted(cfg & 0x87, mml, t, machine)
  {
    hide AccessOk;
    PermissionTable(cfg, machine, false);
  }

  /** The first entry that matches any sector of an access decides it: if it matches them all the table answers, and if not the
      access is refused. */
  lemma TableDecides(m: Machine, s: Csrs, i: nat, addr: bv64, len: nat, t: AccessType, machine: bool)
    requires MachineOk(m) && CsrsOk(s) && len <= 0x1_0000_0000_0000_0000 && FirstMatch(m, s, i, addr, len)
    ensures OkFrom(m, s, 0, addr, len, t, machine, false)
            <==> AllMatch(m, s, i, addr, len) && Granted(s.cfg[i] & 0x87, s.sec & 1 != 0, t, machine)
  {
    hide AnyMatch, AllMatch, AccessOk, Mml, Mmwp, PowerOfTwo, Granted;
    MmlIs(s);
    FirstDecides(m, s, 0, i, addr, len, t, machine, false);
    GrantedExact(s.cfg[i], s.sec & 1 != 0, t, machine);
  }

  /** The offset of a 4-byte sector of an access. */
  predicate Sector(o: nat, len: nat) {
    o < len && o % 4 == 0
  }

  function SectorAt(addr: bv64, o: nat): (a: bv64)
    requires o < 0x1_0000_0000_0000_0000
  {
    addr + o as bv64
  }

  predicate SectorMatch(m: Machine, s: Csrs, i: nat, addr: bv64, o: nat)
    requires CsrsOk(s) && i < MAX_PMP && o < 0x1_0000_0000_0000_0000
  {
    Match4(m, s, i, SectorAt(addr, o))
  }

  predicate AnyMatch(m: Machine, s: Csrs, i: nat, addr: bv64, len: nat)
    requires CsrsOk(s) && i < MAX_PMP && len <= 0x1_0000_0000_0000_0000
  {
    exists o: nat :: o < len && Sector(o, len) && SectorMatch(m, s, i, addr, o)
  }

  predicate AllMatch(m: Machine, s: Csrs, i: nat, addr: bv64, len: nat)
    requires CsrsOk(s) && i < MAX_PMP && len <= 0x1_0000_0000_0000_0000
  {
    forall o: nat | o < len && Sector(o, len) :: SectorMatch(m, s, i, addr, o)
  }

  /** pmp_ok from entry `i` on: the first entry that matches any sector decides. */
  predicate OkFrom(m: Machine, s: Csrs, i: nat, addr: bv64, len: nat, t: AccessType, machine: bool, hlvx: bool)
    requires MachineOk(m) && CsrsOk(s) && i <= m.entries && len <= 0x1_0000_0000_0000_0000
    decreases m.entries - i
  {
    if i == m.entries then machine && !Mmwp(s) && (!Mml(s) || !t.Fetch?)
    else if AnyMatch(m, s, i, addr, len) then AllMatch(m, s, i, addr, len) && AccessOk(s.cfg[i], Mml(s), t, machine, hlvx)
    else OkFrom(m, s, i + 1, addr, len, t, machine, hlvx)
  }

  /** Entry `i` is the first to match any sector of the access. */
  ghost predicate FirstMatch(m: Machine, s: Csrs, i: nat, addr: bv64, len: nat)
    requires MachineOk(m) && CsrsOk(s) && len <= 0x1_0000_0000_0000_0000
  {
    i < m.entries && AnyMatch(m, s, i, addr, len) && forall j: nat | j < i :: !AnyMatch(m, s, j, addr, len)
  }

  lemma MmlIs(s: Csrs)
    ensures Mml(s) <==> s.sec & 1 != 0
    ensures Mmwp(s) <==> s.sec & 2 != 0
    ensures Rlb(s) <==> s.sec & 4 != 0
  {
  }

  lemma {:induction false} FirstDecides(m: Machine, s: Csrs, k: nat, i: nat, addr: bv64, len: nat, t: AccessType, machine: bool, hlvx: bool)
    requires MachineOk(m) && CsrsOk(s) && len <= 0x1_0000_0000_0000_0000 && k <= i && FirstMatch(m, s, i, addr, len)
    ensures OkFrom(m, s, k, addr, len, t, machine, hlvx) <==> AllMatch(m, s, i, addr, len) && AccessOk(s.cfg[i], Mml(s), t, machine, hlvx)
    decreases i - k
  {
    hide AnyMatch, AllMatch, AccessOk, Mml, Mmwp, PowerOfTwo;
    if k < i {
      FirstDecides(m, s, k + 1, i, addr, len, t, machine, hlvx);
    }
  }

  lemma {:induction false} NoneDecides(m: Machine, s: Csrs, k: nat, addr: bv64, len: nat, t: AccessType, machine: bool, hlvx: bool)
    requires MachineOk(m) && CsrsOk(s) && len <= 0x1_0000_0000_0000_0000 && k <= m.entries
    requires forall i: nat | i < m.entries :: !AnyMatch(m, s, i, addr, len)
    ensures OkFrom(m, s, k, addr, len, t, machine, hlvx) <==> machine && !Mmwp(s) && (!Mml(s) || !t.Fetch?)
    decreases m.entries - k
  {
    hide AnyMatch, AllMatch, AccessOk, Mml, Mmwp, PowerOfTwo;
    if k < m.entries {
      NoneDecides(m, s, k + 1, addr, len, t, machine, hlvx);
    }
  }

  /** pmp_ok */
  method PmpOk(m: Machine, s: Csrs, addr: bv64, len: nat, t: AccessType, machine: bool, hlvx: bool) returns (ok: bool)
    requires MachineOk(m) && CsrsOk(s) && len <= 0x1_0000_0000_0000_0000
    ensures ok <==> m.entries == 0 || OkFrom(m, s, 0, addr, len, t, machine, hlvx)
    ensures forall i: nat | FirstMatch(m, s, i, addr, len) ::
              ok <==> AllMatch(m, s, i, addr, len) && AccessOk(s.cfg[i], s.sec & 1 != 0, t, machine, hlvx)
    ensures m.entries > 0 && (forall i: nat | i < m.entries :: !AnyMatch(m, s, i, addr, len)) ==>
              (ok <==> machine && s.sec & 2 == 0 && (s.sec & 1 == 0 || !t.Fetch?))
  {
    hide Match4, AccessOk, PowerOfTwo, Mml, Mmwp, AnyMatch, AllMatch;
    MmlIs(s);
    forall i: nat | FirstMatch(m, s, i, addr, len)
      ensures OkFrom(m, s, 0, addr, len, t, machine, hlvx) <==> AllMatch(m, s, i, addr, len) && AccessOk(s.cfg[i], s.sec & 1 != 0, t, machine, hlvx)
    {
      FirstDecides(m, s, 0, i, addr, len, t, machine, hlvx);
    }
    if forall i: nat | i < m.entries :: !AnyMatch(m, s, i, addr, len) {
      NoneDecides(m, s, 0, addr, len, t, machine, hlvx);
    }
    if m.entries == 0 {
      return true;
    }
    for i := 0 to m.entries
      invariant OkFrom(m, s, 0, addr, len, t, machine, hlvx) <==> OkFrom(m, s, i, addr, len, t, machine, hlvx)
    {
      var anyMatch, allMatch := Sectors(m, s, i, addr, len);
      if anyMatch {
        return allMatch && AccessOk(s.cfg[i], Mml(s), t, machine, hlvx);
      }
    }
    ok := machine && !Mmwp(s) && (!Mml(s) || t.Load? || t.Store?);
  }

  /** The inner loop of pmp_ok. */
  method Sectors(m: Machine, s: Csrs, i: nat, addr: bv64, len: nat) returns (anyMatch: bool, allMatch: bool)
    requires CsrsOk(s) && i < MAX_PMP && len <= 0x1_0000_0000_0000_0000
    ensures anyMatch <==> AnyMatch(m, s, i, addr, len)
    ensures allMatch <==> AllMatch(m, s, i, addr, len)
  {
    hide SectorMatch;
    anyMatch, allMatch := false, true;
    var offset := 0;
    while offset < len
      invariant offset % 4 == 0 && 0 <= offset < len + 4
      invariant anyMatch <==> exists o: nat :: o < offset && o < len && Sector(o, len) && SectorMatch(m, s, i, addr, o)
      invariant allMatch <==> forall o: nat | o < offset && o < len && Sector(o, len) :: SectorMatch(m, s, i, addr, o)
    {
      var match_ := SectorMatch(m, s, i, addr, offset);
      assert Sector(offset, len);
      anyMatch := anyMatch || match_;
      allMatch := allMatch && match_;
      offset := offset + 4;
      assert forall o: nat | o < offset && Sector(o, len) :: o <= offset - 4;
    }
  }

  // ----- what makes an answer cacheable

  predicate Homogeneous(m: Machine, s: Csrs, addr: bv64, len: bv64)
    requires MachineOk(m) && CsrsOk(s)
  {
    forall i: nat | i < m.entries :: !SubsetMatch(m, s, i, addr, len)
  }

  /** pmp_homogeneous */
  method PmpHomogeneous(m: Machine, s: Csrs, addr: bv64, len: bv64) returns (h: bool)
    requires MachineOk(m) && CsrsOk(s) && Block(addr, len)
    ensures h <==> Homogeneous(m, s, addr, len)
  {
    hide SubsetMatch;
    for i := 0 to m.entries
      invariant forall j: nat | j < i :: !SubsetMatch(m, s, j, addr, len)
    {
      if SubsetMatch(m, s, i, addr, len) {
        return false;
      }
    }
    return true;
  }

  /** Every sector of the access lies in the block. */
  ghost predicate Inside(addr: bv64, len: nat, base: bv64, size: bv64)
    requires len <= 0x1_0000_0000_0000_0000
  {
    forall o: nat | o < len && Sector(o, len) :: InBlock(SectorAt(addr, o), base, size)
  }

  lemma MatchesAsBase(m: Machine, s: Csrs, i: nat, base: bv64, size: bv64, a: bv64)
    requires MachineOk(m) && CsrsOk(s) && i < MAX_PMP && Block(base, size) && !SubsetMatch(m, s, i, base, size)
    requires InBlock(a, base, size)
    ensures Match4(m, s, i, a) <==> Match4(m, s, i, base)
  {
    hide PowerOfTwo, Block, InBlock, NapotMask, Matches, Splits, MaskOk, TopOf;
    MaskShape(m.torMask, s.val[i], s.cfg[i]);
    NotSplit(s.cfg[i], TorBase(m, s, i), TorPaddr(m, s, i), NapotMask(m.torMask, s.val[i], s.cfg[i]), base, size, a);
  }

  lemma HomogeneousSectors(m: Machine, s: Csrs, i: nat, base: bv64, size: bv64, addr: bv64, len: nat)
    requires MachineOk(m) && CsrsOk(s) && i < m.entries && Block(base, size) && !SubsetMatch(m, s, i, base, size)
    requires 0 < len <= 0x1_0000_0000_0000_0000 && Inside(addr, len, base, size)
    ensures AnyMatch(m, s, i, addr, len) <==> Match4(m, s, i, base)
    ensures AllMatch(m, s, i, addr, len) <==> Match4(m, s, i, base)
  {
    hide PowerOfTwo, Block, InBlock, SubsetMatch, Match4, SectorAt;
    forall o: nat | o < len && Sector(o, len)
      ensures SectorMatch(m, s, i, addr, o) <==> Match4(m, s, i, base)
    {
      MatchesAsBase(m, s, i, base, size, SectorAt(addr, o));
    }
    assert Sector(0, len);
  }

  /** When pmp_homogeneous holds of a page, every access inside the page gets the same answer,
      so one answer may be kept for the whole page. */
  lemma {:induction false} HomogeneousDecides(m: Machine, s: Csrs, i: nat, base: bv64, size: bv64,
                                              a: bv64, la: nat, b: bv64, lb: nat, t: AccessType, machine: bool, hlvx: bool)
    requires MachineOk(m) && CsrsOk(s) && i <= m.entries && Block(base, size) && Homogeneous(m, s, base, size)
    requires 0 < la <= 0x1_0000_0000_0000_0000 && Inside(a, la, base, size)
    requires 0 < lb <= 0x1_0000_0000_0000_0000 && Inside(b, lb, base, size)
    ensures OkFrom(m, s, i, a, la, t, machine, hlvx) <==> OkFrom(m, s, i, b, lb, t, machine, hlvx)
    decreases m.entries - i
  {
    hide PowerOfTwo, Block, Inside, SubsetMatch, Match4, AccessOk, AnyMatch, AllMatch, Mml, Mmwp;
    if i < m.entries {
      HomogeneousSectors(m, s, i, base, size, a, la);
      HomogeneousSectors(m, s, i, base, size, b, lb);
      HomogeneousDecides(m, s, i + 1, base, size, a, la, b, lb, t, machine, hlvx);
    }
  }
}
