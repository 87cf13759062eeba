/** What an RV64 hart does when it executes the instructions of an abstract command, and the meaning of the
    programs that the debug module emits (riscv/debug_module.cc). */
module DebugHart {
  import opened DebugProgram
  import opened Wrappers

  // ----- words

  function Low(v: bv64): (w: bv32) {
    (v & 0xFFFF_FFFF) as bv32
  }

  function High(v: bv64): (w: bv32) {
    (v >> 32) as bv32
  }

  function Join(low: bv32, high: bv32): (v: bv64) {
    (high as bv64 << 32) | (low as bv64)
  }

  /** A word loaded into a 64-bit register. */
  function SignExtended(w: bv32): (v: bv64) {
    if w & 0x8000_0000 != 0 then (w as bv64) | 0xFFFF_FFFF_0000_0000 else w as bv64
  }

  function WordOf(n: nat): (v: bv64) {
    if n == 0 then 0 else (WordOf(n / 2) << 1) | (if n % 2 == 1 then 1 else 0)
  }

  // ----- the hart

  /** Registers, control and status registers, and the two data words of the debug module. */
  datatype Hart = Hart(gpr: seq<bv64>, fpr: seq<bv64>, csr: seq<bv64>, data: seq<bv32>)

  predicate HartOk(h: Hart) {
    |h.gpr| == 32 && |h.fpr| == 32 && |h.csr| == 0x1000 && |h.data| == 2 && h.gpr[0] == 0
  }

  /** The floating-point unit is on. */
  predicate FsOn(mstatus: bv64) {
    mstatus & 0x6000 != 0
  }

  function TurnedOn(mstatus: bv64): (r: bv64) {
    mstatus | 0x6000
  }

  predicate IsFpuCsr(csr: nat) {
    csr == FFLAGS || csr == FRM || csr == FCSR
  }

  function SetGpr(h: Hart, rd: nat, v: bv64): (r: Hart)
    requires HartOk(h) && rd < 32
    ensures HartOk(r)
  {
    if rd == 0 then h else h.(gpr := h.gpr[rd := v])
  }

  function Loaded(width: nat, data: seq<bv32>): (v: bv64)
    requires |data| == 2
  {
    if width == 2 then SignExtended(data[0]) else Join(data[0], data[1])
  }

  /** A single-precision value in a double-precision register has ones above it. */
  function Floaded(width: nat, data: seq<bv32>): (v: bv64)
    requires |data| == 2
  {
    if width == 2 then Join(data[0], 0xFFFF_FFFF) else Join(data[0], data[1])
  }

  function Stored(width: nat, v: bv64, data: seq<bv32>): (r: seq<bv32>)
    requires |data| == 2
    ensures |r| == 2
  {
    if width == 2 then [Low(v), data[1]] else [Low(v), High(v)]
  }

  /** One instruction, or None when it raises an exception. */
  function Exec(i: Instr, h: Hart): (r: Option<Hart>)
    requires HartOk(h) && InstrOk(i)
    ensures r.Some? ==> HartOk(r.value)
  {
    match i
    case Csrrw(rd, rs, csr) =>
      if IsFpuCsr(csr) && !FsOn(h.csr[MSTATUS]) then None
      else Some(SetGpr(h.(csr := h.csr[csr := h.gpr[rs]]), rd, h.csr[csr]))
    case Csrrs(rd, rs, csr) =>
      if IsFpuCsr(csr) && !FsOn(h.csr[MSTATUS]) then None
      else Some(SetGpr(if rs == 0 then h else h.(csr := h.csr[csr := h.csr[csr] | h.gpr[rs]]), rd, h.csr[csr]))
    case Lui(rd, imm) => Some(SetGpr(h, rd, WordOf(imm) << 12))
    case Load(w, rd, o) => if o == DATA_START then Some(SetGpr(h, rd, Loaded(w, h.data))) else None
    case Store(w, rs, o) => if o == DATA_START then Some(h.(data := Stored(w, h.gpr[rs], h.data))) else None
    case Fload(w, rd, o) => if o == DATA_START && FsOn(h.csr[MSTATUS]) then Some(h.(fpr := h.fpr[rd := Floaded(w, h.data)])) else None
    case Fstore(w, rs, o) => if o == DATA_START && FsOn(h.csr[MSTATUS]) then Some(h.(data := Stored(w, h.fpr[rs], h.data))) else None
    case Jal(_) => None
    case Ebreak => None
  }

  predicate ProgramOk(p: seq<Instr>) {
    forall k | 0 <= k < |p| :: InstrOk(p[k])
  }

  /** Straight-line execution. */
  function Run(p: seq<Instr>, h: Hart): (r: Option<Hart>)
    requires HartOk(h) && ProgramOk(p)
    ensures r.Some? ==> HartOk(r.value)
    decreases |p|
  {
    if p == [] then Some(h)
    else
      var n := Exec(p[0], h);
      if n.None? then None else Run(p[1..], n.value)
  }

  lemma {:induction false} RunAppend(p: seq<Instr>, q: seq<Instr>, h: Hart)
    requires HartOk(h) && ProgramOk(p) && ProgramOk(q)
    ensures ProgramOk(p + q)
    ensures Run(p + q, h) == if Run(p, h).None? then None else Run(q, Run(p, h).value)
    decreases |p|
  {
    if p == [] {
      assert p + q == q;
    } else {
      assert (p + q)[1..] == p[1..] + q && (p + q)[0] == p[0];
      if Exec(p[0], h).Some? {
        RunAppend(p[1..], q, Exec(p[0], h).value);
      }
    }
  }

  lemma RunStep(p: seq<Instr>, k: nat, h: Hart)
    requires HartOk(h) && ProgramOk(p) && k < |p| && Exec(p[k], h).Some?
    ensures ProgramOk(p[k..]) && ProgramOk(p[k + 1..])
    ensures Run(p[k..], h) == Run(p[k + 1..], Exec(p[k], h).value)
  {
    assert p[k..][1..] == p[k + 1..];
  }

  // ----- the programs

  datatype Config = Config(progbufsize: nat, impebreak: bool, rti: nat, csrAccess: bool, fprAccess: bool, groups: bool)

  predicate IsFpuReg(regno: nat) {
    0x1020 <= regno <= 0x103f || IsFpuCsr(regno)
  }

  function SaveFpu(): (p: seq<Instr>)
    ensures |p| == 5
  {
    [Csrrw(ZERO, S0, DSCRATCH0), Csrrs(S0, ZERO, MSTATUS), Csrrw(ZERO, S0, DSCRATCH1),
     Lui(S0, MSTATUS_FS / 0x1000), Csrrs(ZERO, S0, MSTATUS)]
  }

  function RestoreFpu(): (p: seq<Instr>) {
    [Csrrs(S0, ZERO, DSCRATCH1), Csrrw(ZERO, S0, MSTATUS), Csrrs(S0, ZERO, DSCRATCH0)]
  }

  /** The instructions that move a register, between saving and restoring. */
  function Move(write: bool, size: nat, regno: nat): (p: seq<Instr>)
    requires regno < 0x1040
  {
    if regno < 0x1000 then
      if write then [Load(size, S0, DATA_START), Csrrw(ZERO, S0, regno)]
      else [Csrrs(S0, ZERO, regno), Store(size, S0, DATA_START)]
    else if regno < 0x1020 then
      (if write then [Load(size, regno - 0x1000, DATA_START)] else [Store(size, regno - 0x1000, DATA_START)])
      + if write && regno == 0x1000 + S0 then [Csrrw(ZERO, S0, DSCRATCH0)] else []
    else
      if write then [Fload(size, regno - 0x1020, DATA_START)] else [Fstore(size, regno - 0x1020, DATA_START)]
  }

  function Transfer(write: bool, size: nat, regno: nat): (p: seq<Instr>)
    requires regno < 0x1040
  {
    if IsFpuReg(regno) then SaveFpu() + Move(write, size, regno) + RestoreFpu()
    else if regno < 0x1000 then
      [Csrrw(ZERO, S0, DSCRATCH0)] + Move(write, size, regno) + [Csrrs(S0, ZERO, DSCRATCH0)]
    else Move(write, size, regno)
  }

  lemma TransferOk(write: bool, size: nat, regno: nat)
    requires regno < 0x1040 && 2 <= size <= 3
    ensures ProgramOk(Transfer(write, size, regno)) && |Transfer(write, size, regno)| <= 10
  {
  }

  // ----- what they mean

  /** The hart after S0 has been saved, mstatus too, and the floating-point unit turned on. */
  function Saved(h: Hart): (r: Hart)
    requires HartOk(h)
    ensures HartOk(r)
  {
    h.(gpr := h.gpr[S0 := 0x6000],
       csr := h.csr[DSCRATCH0 := h.gpr[S0]][DSCRATCH1 := h.csr[MSTATUS]][MSTATUS := TurnedOn(h.csr[MSTATUS])])
  }

  lemma FsValue()
    ensures WordOf(MSTATUS_FS / 0x1000) << 12 == 0x6000
  {
    assert WordOf(1) == 1;
    assert WordOf(3) == 3;
  }

  lemma FsTurnedOn(v: bv64)
    ensures FsOn(TurnedOn(v))
  {
  }

  /** S0 and mstatus in their scratch registers. */
  function Scratched(h: Hart): (r: Hart)
    requires HartOk(h)
    ensures HartOk(r)
  {
    h.(gpr := h.gpr[S0 := h.csr[DSCRATCH0 := h.gpr[S0]][MSTATUS]],
       csr := h.csr[DSCRATCH0 := h.gpr[S0]][DSCRATCH1 := h.csr[MSTATUS]])
  }

  lemma ScratchMeans(h: Hart)
    requires HartOk(h)
    ensures ProgramOk(SaveFpu()[..3]) && Run(SaveFpu()[..3], h) == Some(Scratched(h))
  {
    hide FsOn, WordOf, Loaded, Floaded, Stored;
    var p := SaveFpu()[..3];
    RunStep(p, 0, h);
    var h1 := Exec(p[0], h).value;
    RunStep(p, 1, h1);
    var h2 := Exec(p[1], h1).value;
    RunStep(p, 2, h2);
    assert p[0..] == p && p[3..] == [];
  }

  lemma TurnOnMeans(h: Hart)
    requires HartOk(h)
    ensures ProgramOk(SaveFpu()[3..]) && Run(SaveFpu()[3..], Scratched(h)) == Some(Saved(h))
  {
    hide FsOn, WordOf, Loaded, Floaded, Stored;
    var p := SaveFpu()[3..];
    FsValue();
    RunStep(p, 0, Scratched(h));
    var h1 := Exec(p[0], Scratched(h)).value;
    RunStep(p, 1, h1);
    assert p[0..] == p && p[2..] == [];
    assert Exec(p[1], h1).value == Saved(h);
  }

  lemma SplitProgram(p: seq<Instr>, k: nat)
    requires k <= |p| && ProgramOk(p[..k]) && ProgramOk(p[k..])
    ensures p[..k] + p[k..] == p && ProgramOk(p)
  {
    hide InstrOk;
    forall j | 0 <= j < |p| ensures InstrOk(p[j]) {
      assert p[j] == if j < k then p[..k][j] else p[k..][j - k];
    }
  }

  lemma SavedFs(h: Hart)
    requires HartOk(h)
    ensures HartOk(Saved(h)) && FsOn(Saved(h).csr[MSTATUS])
  {
    hide FsOn, TurnedOn;
    FsTurnedOn(h.csr[MSTATUS]);
  }

  lemma SaveFpuMeans(h: Hart)
    requires HartOk(h)
    ensures ProgramOk(SaveFpu()) && Run(SaveFpu(), h) == Some(Saved(h)) && FsOn(Saved(h).csr[MSTATUS])
  {
    hide FsOn, WordOf, Exec, Run, Scratched, SaveFpu, ProgramOk, Saved, HartOk;
    SavedFs(h);
    ScratchMeans(h);
    TurnOnMeans(h);
    SplitProgram(SaveFpu(), 3);
    RunAppend(SaveFpu()[..3], SaveFpu()[3..], h);
  }

  function Restored(h: Hart): (r: Hart)
    requires HartOk(h)
    ensures HartOk(r)
  {
    h.(gpr := h.gpr[S0 := h.csr[DSCRATCH0]], csr := h.csr[MSTATUS := h.csr[DSCRATCH1]])
  }

  lemma RestoreFpuMeans(h: Hart)
    requires HartOk(h)
    ensures ProgramOk(RestoreFpu()) && Run(RestoreFpu(), h) == Some(Restored(h))
  {
    hide FsOn, WordOf, Loaded, Floaded, Stored;
    var p := RestoreFpu();
    RunStep(p, 0, h);
    var h1 := Exec(p[0], h).value;
    RunStep(p, 1, h1);
    var h2 := Exec(p[1], h1).value;
    RunStep(p, 2, h2);
    assert p[0..] == p && p[3..] == [];
    assert Exec(p[2], h2).value == Restored(h);
  }

  lemma MoveGprMeans(write: bool, size: nat, n: nat, h: Hart)
    requires HartOk(h) && 2 <= size <= 3 && n < 32
    ensures ProgramOk(Move(write, size, 0x1000 + n))
    ensures Run(Move(write, size, 0x1000 + n), h) == Some(
              if !write then h.(data := Stored(size, h.gpr[n], h.data))
              else if n == 0 then h
              else h.(gpr := h.gpr[n := Loaded(size, h.data)],
                      csr := if n == S0 then h.csr[DSCRATCH0 := Loaded(size, h.data)] else h.csr))
  {
    hide FsOn, WordOf, Loaded, Floaded, Stored;
    var p := Move(write, size, 0x1000 + n);
    RunStep(p, 0, h);
    assert p[0..] == p && p[|p|..] == [];
    if |p| == 2 {
      RunStep(p, 1, Exec(p[0], h).value);
    }
  }

  lemma MoveFprMeans(write: bool, size: nat, n: nat, h: Hart)
    requires HartOk(h) && 2 <= size <= 3 && n < 32 && FsOn(h.csr[MSTATUS])
    ensures ProgramOk(Move(write, size, 0x1020 + n))
    ensures Run(Move(write, size, 0x1020 + n), h) == Some(
              if write then h.(fpr := h.fpr[n := Floaded(size, h.data)]) else h.(data := Stored(size, h.fpr[n], h.data)))
  {
    hide FsOn, WordOf, Loaded, Floaded, Stored;
    var p := Move(write, size, 0x1020 + n);
    RunStep(p, 0, h);
    assert p[0..] == p && p[1..] == [];
  }

  lemma MoveCsrMeans(write: bool, size: nat, csr: nat, h: Hart)
    requires HartOk(h) && 2 <= size <= 3 && csr < 0x1000 && (IsFpuCsr(csr) ==> FsOn(h.csr[MSTATUS]))
    ensures ProgramOk(Move(write, size, csr))
    ensures Run(Move(write, size, csr), h) == Some(
              if write then h.(gpr := h.gpr[S0 := Loaded(size, h.data)], csr := h.csr[csr := Loaded(size, h.data)])
              else h.(gpr := h.gpr[S0 := h.csr[csr]], data := Stored(size, h.csr[csr], h.data)))
  {
    hide FsOn, WordOf, Loaded, Floaded, Stored;
    var p := Move(write, size, csr);
    RunStep(p, 0, h);
    RunStep(p, 1, Exec(p[0], h).value);
    assert p[0..] == p && p[2..] == [];
  }

  // ----- whole transfers

  /** The value of a register, and a hart with another value in it. */
  function Register(h: Hart, regno: nat): (v: bv64)
    requires HartOk(h) && regno < 0x1040
  {
    if regno < 0x1000 then h.csr[regno] else if regno < 0x1020 then h.gpr[regno - 0x1000] else h.fpr[regno - 0x1020]
  }

  function WithRegister(h: Hart, regno: nat, v: bv64): (r: Hart)
    requires HartOk(h) && regno < 0x1040
    ensures HartOk(r)
  {
    if regno < 0x1000 then h.(csr := h.csr[regno := v])
    else if regno < 0x1020 then SetGpr(h, regno - 0x1000, v)
    else h.(fpr := h.fpr[regno - 0x1020 := v])
  }

  function Value(size: nat, regno: nat, data: seq<bv32>): (v: bv64)
    requires |data| == 2
  {
    if regno < 0x1020 then Loaded(size, data) else Floaded(size, data)
  }

  /** What an access-register command is for. */
  function Moved(write: bool, size: nat, regno: nat, h: Hart): (r: Hart)
    requires HartOk(h) && regno < 0x1040
    ensures HartOk(r)
  {
    if write then WithRegister(h, regno, Value(size, regno, h.data))
    else h.(data := Stored(size, Register(h, regno), h.data))
  }

  /** Two harts that differ at most in the debug scratch registers. */
  predicate SameButScratch(r: Hart, h: Hart)
    requires HartOk(r) && HartOk(h)
  {
    && r.gpr == h.gpr && r.fpr == h.fpr && r.data == h.data
    && forall c | 0 <= c < 0x1000 && c != DSCRATCH0 && c != DSCRATCH1 :: r.csr[c] == h.csr[c]
  }

  lemma TransferGprMeans(write: bool, size: nat, n: nat, h: Hart)
    requires HartOk(h) && 2 <= size <= 3 && n < 32
    ensures ProgramOk(Transfer(write, size, 0x1000 + n))
    ensures var r := Run(Transfer(write, size, 0x1000 + n), h); r.Some? && SameButScratch(r.value, Moved(write, size, 0x1000 + n, h))
    ensures Run(Transfer(write, size, 0x1000 + n), h).value.csr[DSCRATCH1] == h.csr[DSCRATCH1]
    ensures write && n == S0 ==> Run(Transfer(write, size, 0x1000 + n), h).value.csr[DSCRATCH0] == Loaded(size, h.data)
  {
    hide Run, Move, Loaded, Floaded, Stored;
    MoveGprMeans(write, size, n, h);
  }

  lemma RunMiddle(p: seq<Instr>, q: seq<Instr>, r: seq<Instr>, h: Hart, h1: Hart, h2: Hart)
    requires HartOk(h) && HartOk(h1) && HartOk(h2) && ProgramOk(p) && ProgramOk(q) && ProgramOk(r)
    requires Run(p, h) == Some(h1) && Run(q, h1) == Some(h2)
    ensures ProgramOk(p + q + r) && Run(p + q + r, h) == Run(r, h2)
  {
    hide Run, Exec;
    RunAppend(p, q, h);
    RunAppend(p + q, r, h);
  }

  lemma TransferFprMeans(write: bool, size: nat, n: nat, h: Hart)
    requires HartOk(h) && 2 <= size <= 3 && n < 32
    ensures ProgramOk(Transfer(write, size, 0x1020 + n))
    ensures var r := Run(Transfer(write, size, 0x1020 + n), h); r.Some? && SameButScratch(r.value, Moved(write, size, 0x1020 + n, h))
  {
    hide Run, Move, SaveFpu, RestoreFpu, Loaded, Floaded, Stored, FsOn;
    var a := Saved(h);
    SaveFpuMeans(h);
    MoveFprMeans(write, size, n, a);
    var b := Run(Move(write, size, 0x1020 + n), a).value;
    RestoreFpuMeans(b);
    RunMiddle(SaveFpu(), Move(write, size, 0x1020 + n), RestoreFpu(), h, a, b);
    assert Restored(b).gpr == h.gpr;
  }

  lemma TransferFpuCsrMeans(write: bool, size: nat, csr: nat, h: Hart)
    requires HartOk(h) && 2 <= size <= 3 && IsFpuCsr(csr)
    ensures ProgramOk(Transfer(write, size, csr))
    ensures var r := Run(Transfer(write, size, csr), h); r.Some? && SameButScratch(r.value, Moved(write, size, csr, h))
  {
    hide Run, Move, SaveFpu, RestoreFpu, Loaded, Floaded, Stored, FsOn;
    var a := Saved(h);
    SaveFpuMeans(h);
    MoveCsrMeans(write, size, csr, a);
    var b := Run(Move(write, size, csr), a).value;
    RestoreFpuMeans(b);
    RunMiddle(SaveFpu(), Move(write, size, csr), RestoreFpu(), h, a, b);
    assert Restored(b).gpr == h.gpr;
  }

  lemma SaveS0Means(h: Hart)
    requires HartOk(h)
    ensures ProgramOk([Csrrw(ZERO, S0, DSCRATCH0)])
    ensures Run([Csrrw(ZERO, S0, DSCRATCH0)], h) == Some(h.(csr := h.csr[DSCRATCH0 := h.gpr[S0]]))
  {
    hide FsOn;
    assert Run([], Exec(Csrrw(ZERO, S0, DSCRATCH0), h).value) == Exec(Csrrw(ZERO, S0, DSCRATCH0), h);
  }

  lemma RestoreS0Means(h: Hart)
    requires HartOk(h)
    ensures ProgramOk([Csrrs(S0, ZERO, DSCRATCH0)])
    ensures Run([Csrrs(S0, ZERO, DSCRATCH0)], h) == Some(h.(gpr := h.gpr[S0 := h.csr[DSCRATCH0]]))
  {
    hide FsOn;
    assert Run([], Exec(Csrrs(S0, ZERO, DSCRATCH0), h).value) == Exec(Csrrs(S0, ZERO, DSCRATCH0), h);
  }

  /** A transfer of a control and status register, in full: S0 comes back from its scratch register. */
  lemma TransferCsrIs(write: bool, size: nat, csr: nat, h: Hart)
    requires HartOk(h) && 2 <= size <= 3 && csr < 0x1000 && !IsFpuCsr(csr)
    ensures ProgramOk(Transfer(write, size, csr))
    ensures var c, v := h.csr[DSCRATCH0 := h.gpr[S0]], Loaded(size, h.data);
            Run(Transfer(write, size, csr), h) == Some(
              if write then h.(gpr := h.gpr[S0 := c[csr := v][DSCRATCH0]], csr := c[csr := v])
              else h.(csr := c, data := Stored(size, c[csr], h.data)))
  {
    hide Run, Exec, Move, Loaded, Floaded, Stored;
    SaveS0Means(h);
    var a := h.(csr := h.csr[DSCRATCH0 := h.gpr[S0]]);
    MoveCsrMeans(write, size, csr, a);
    var b := Run(Move(write, size, csr), a).value;
    RestoreS0Means(b);
    RunMiddle([Csrrw(ZERO, S0, DSCRATCH0)], Move(write, size, csr), [Csrrs(S0, ZERO, DSCRATCH0)], h, a, b);
    var g := b.gpr[S0 := b.csr[DSCRATCH0]];
    assert g == h.gpr[S0 := b.csr[DSCRATCH0]];
    assert !write ==> g == h.gpr;
  }

  /** An access-register command moves its register to or from the data words and leaves every other
      register, mstatus included, as it was, but for the debug scratch registers; DSCRATCH1, which serves only where the
      floating-point unit is turned on, is moved or kept like any other register elsewhere. DSCRATCH0 itself can be
      read when it holds S0, as it does on entry from the debug ROM, and can not be written. */
  lemma TransferMeans(write: bool, size: nat, regno: nat, h: Hart)
    requires HartOk(h) && 2 <= size <= 3 && regno < 0x1040
    requires regno == DSCRATCH0 ==> !write && h.csr[DSCRATCH0] == h.gpr[S0]
    ensures ProgramOk(Transfer(write, size, regno))
    ensures var r := Run(Transfer(write, size, regno), h); r.Some? && SameButScratch(r.value, Moved(write, size, regno, h))
    ensures regno < 0x1020 && !IsFpuCsr(regno) ==>
              Run(Transfer(write, size, regno), h).value.csr[DSCRATCH1] == Moved(write, size, regno, h).csr[DSCRATCH1]
  {
    hide Run, Move, SaveFpu, RestoreFpu, Loaded, Floaded, Stored, FsOn, Transfer;
    if regno >= 0x1020 {
      TransferFprMeans(write, size, regno - 0x1020, h);
    } else if regno >= 0x1000 {
      TransferGprMeans(write, size, regno - 0x1000, h);
    } else if IsFpuCsr(regno) {
      TransferFpuCsrMeans(write, size, regno, h);
    } else {
      TransferCsrIs(write, size, regno, h);
      assert h.gpr[S0 := h.gpr[S0]] == h.gpr;
    }
  }

  /** Writing DSCRATCH0 leaves S0 as it was exactly when the value written is that of S0. */
  lemma WritingScratchClobbers(size: nat, h: Hart)
    requires HartOk(h) && 2 <= size <= 3
    ensures ProgramOk(Transfer(true, size, DSCRATCH0))
    ensures var r := Run(Transfer(true, size, DSCRATCH0), h);
            r.Some? && (r.value.gpr == h.gpr <==> Loaded(size, h.data) == h.gpr[S0])
  {
    hide Run, Transfer, Loaded;
    TransferCsrIs(true, size, DSCRATCH0, h);
    var v := Loaded(size, h.data);
    assert h.gpr[S0 := v][S0] == v;
    if v == h.gpr[S0] { assert h.gpr[S0 := v] == h.gpr; }
  }

  // ----- what is written can be read back

  lemma JoinSplit(v: bv64)
    ensures Join(Low(v), High(v)) == v
  {
  }

  lemma SplitJoin(low: bv32, high: bv32)
    ensures Low(Join(low, high)) == low && High(Join(low, high)) == high
  {
  }

  lemma LowOr(w: bv32)
    ensures Low((w as bv64) | 0xFFFF_FFFF_0000_0000) == w && Low(w as bv64) == w
  {
  }

  lemma LowSignExtended(w: bv32)
    ensures Low(SignExtended(w)) == w
  {
    hide Low;
    LowOr(w);
  }

  /** The data words that a write took come back from a read of the same size. */
  lemma WriteReadBack(size: nat, data: seq<bv32>)
    requires |data| == 2 && 2 <= size <= 3
    ensures Stored(size, Loaded(size, data), data) == data
    ensures Stored(size, Floaded(size, data), data) == data
  {
    hide Low, High, Join, SignExtended;
    SplitJoin(data[0], data[1]);
    SplitJoin(data[0], 0xFFFF_FFFF);
    LowSignExtended(data[0]);
  }

  /** A register moved out in full and back keeps its value. */
  lemma ReadWriteBack(v: bv64, data: seq<bv32>)
    requires |data| == 2
    ensures Loaded(3, Stored(3, v, data)) == v && Floaded(3, Stored(3, v, data)) == v
  {
    hide Low, High, Join;
    JoinSplit(v);
  }
}
