/** What the debug module's commands and registers mean, in numbers: the fields of a command word, the words emitted, the
    answers to a command and the register map (riscv/debug_module.cc, riscv/debug_defines.h, riscv/opcodes.h). */
module DebugLaws {
  import opened DebugProgram
  import opened DebugHart
  import opened DebugModule
  import opened Wrappers

  // ----- the fields of a command

  /** The word of an access-register command: register number, write, transfer and postexec bits, and size. */
  function CommandWord(regno: nat, write: nat, transfer: nat, postexec: nat, size: nat): (w: nat) {
    size * 0x10_0000 + postexec * 0x4_0000 + transfer * 0x2_0000 + write * 0x1_0000 + regno
  }

  /** Each field of a command is where the standard has it. */
  lemma CommandFields(regno: nat, write: nat, transfer: nat, postexec: nat, size: nat)
    requires regno < 0x1_0000 && write < 2 && transfer < 2 && postexec < 2 && size < 8
    ensures var w := CommandWord(regno, write, transfer, postexec, size);
            && Regno(w) == regno && SizeOf(w) == size && w / 0x100_0000 == 0
            && (IsWrite(w) <==> write == 1) && (IsTransfer(w) <==> transfer == 1) && (IsPostexec(w) <==> postexec == 1)
  {
    var w := CommandWord(regno, write, transfer, postexec, size);
    var b := size * 4 + postexec;
    var a := b * 2 + transfer;
    var d := a * 2 + write;
    assert w == d * 0x1_0000 + regno;
    assert w / 0x1_0000 == d && w / 0x2_0000 == a && w / 0x4_0000 == b && w / 0x10_0000 == size && w / 0x100_0000 == 0;
    LastDigit(a, write);
    LastDigit(b, transfer);
    assert b == (size * 2) * 2 + postexec;
    LastDigit(size * 2, postexec);
  }

  lemma LastDigit(n: nat, d: nat)
    requires d < 2
    ensures (n * 2 + d) % 2 == d
  {
  }

  // ----- the words emitted

  /** The instruction words of the RISC-V manuals. */
  lemma EncodingExact(rd: nat, csr: nat, o: nat, imm: nat)
    requires rd < 32 && csr < 0x1000 && o < 0x1000 && imm < 0x10_0000
    ensures Encode(Csrrw(0, rd, csr)) == csr * 0x10_0000 + rd * 0x8000 + 0x1073
    ensures Encode(Csrrs(rd, 0, csr)) == csr * 0x10_0000 + rd * 0x80 + 0x2073
    ensures Encode(Csrrs(0, rd, csr)) == csr * 0x10_0000 + rd * 0x8000 + 0x2073
    ensures Encode(Load(2, rd, o)) == o * 0x10_0000 + rd * 0x80 + 0x2003
    ensures Encode(Load(3, rd, o)) == o * 0x10_0000 + rd * 0x80 + 0x3003
    ensures Encode(Store(2, rd, o)) == o / 32 * 0x200_0000 + rd * 0x10_0000 + o % 32 * 0x80 + 0x2023
    ensures Encode(Store(3, rd, o)) == o / 32 * 0x200_0000 + rd * 0x10_0000 + o % 32 * 0x80 + 0x3023
    ensures Encode(Fload(2, rd, o)) == o * 0x10_0000 + rd * 0x80 + 0x2007
    ensures Encode(Fload(3, rd, o)) == o * 0x10_0000 + rd * 0x80 + 0x3007
    ensures Encode(Fstore(2, rd, o)) == o / 32 * 0x200_0000 + rd * 0x10_0000 + o % 32 * 0x80 + 0x2027
    ensures Encode(Fstore(3, rd, o)) == o / 32 * 0x200_0000 + rd * 0x10_0000 + o % 32 * 0x80 + 0x3027
    ensures Encode(Ebreak) == 0x0010_0073
  {
  }

  /** The upper immediate lies in the upper twenty bits. */
  lemma LuiWord(rd: nat, imm: nat)
    requires rd < 32 && imm < 0x10_0000
    ensures Encode(Lui(rd, imm)) == imm * 0x1000 + rd * 0x80 + 0x37
  {
    LuiBits(imm);
  }

  /** A jump forward by less than 2 KiB. */
  lemma JalWord(o: nat)
    requires o < 0x800 && o % 2 == 0
    ensures Encode(Jal(o)) == o / 2 * 0x20_0000 + 0x6f
  {
  }

  // ----- the data words

  lemma LowHigh(v: bv64)
    ensures Low(v) as bv64 == v & 0xFFFF_FFFF && High(v) as bv64 == v >> 32
  {
  }

  lemma Extended(w: bv32)
    ensures Low(SignExtended(w)) == w
    ensures High(SignExtended(w)) == if w & 0x8000_0000 != 0 then 0xFFFF_FFFF else 0
  {
  }

  lemma JoinedParts(low: bv32, high: bv32)
    ensures Low(Join(low, high)) == low && High(Join(low, high)) == high
  {
  }

  /** data0 is the lower word; a word is loaded with its sign, and a single-precision value with ones above it; a word stored
      leaves data1 as it was. */
  lemma DataWords(size: nat, data: seq<bv32>, v: bv64)
    requires |data| == 2 && 2 <= size <= 3
    ensures Low(Loaded(size, data)) == data[0] && Low(Floaded(size, data)) == data[0]
    ensures High(Loaded(size, data)) == if size == 3 then data[1] else if data[0] & 0x8000_0000 != 0 then 0xFFFF_FFFF else 0
    ensures High(Floaded(size, data)) == if size == 3 then data[1] else 0xFFFF_FFFF
    ensures Stored(size, v, data) == [Low(v), if size == 3 then High(v) else data[1]]
  {
    hide Low, High, Join, SignExtended;
    Extended(data[0]);
    JoinedParts(data[0], data[1]);
    JoinedParts(data[0], 0xFFFF_FFFF);
  }

  // ----- what a command does

  /** The words begin with those of the command's program. */
  ghost predicate Begins(words: seq<nat>, command: nat) {
    && (IsTransfer(command) ==> Regno(command) < 0x1040)
    && var p := ProgramOf(command);
    && |p| <= |words| && forall k | 0 <= k < |p| :: InstrOk(p[k]) && words[k] == Encode(p[k])
  }

  /** The words are read as that program, and executing it up to its last instruction takes one hart to another. */
  ghost predicate Executes(words: seq<nat>, command: nat, h: Hart, r: Hart) {
    && (IsTransfer(command) ==> Regno(command) < 0x1040) && HartOk(h)
    && var p := ProgramOf(command);
    && |p| <= |words| && (forall k | 0 <= k < |p| :: DebugProgram.Decode(words[k]) == Some(p[k]))
    && ProgramOk(p[..|p| - 1]) && Run(p[..|p| - 1], h) == Some(r)
  }

  /** The effect of a command that is given by its fields, on a general register: with the write bit the data words stay and
      go into the register, without it the register stays and goes into the data words. No other register changes. */
  lemma GeneralMeans(c: Config, n: nat, write: nat, postexec: nat, size: nat, words: seq<nat>, h: Hart) returns (r: Hart)
    requires n < 32 && write < 2 && postexec < 2 && 2 <= size <= 3 && HartOk(h)
    requires Begins(words, CommandWord(0x1000 + n, write, 1, postexec, size))
    ensures HartOk(r) && Executes(words, CommandWord(0x1000 + n, write, 1, postexec, size), h, r)
    ensures r.fpr == h.fpr && forall k | 0 <= k < 0x1000 && k != DSCRATCH0 && k != DSCRATCH1 :: r.csr[k] == h.csr[k]
    ensures write == 1 ==> r.data == h.data && r.gpr == if n == 0 then h.gpr else h.gpr[n := Loaded(size, h.data)]
    ensures write == 0 ==> r.gpr == h.gpr && r.data == Stored(size, h.gpr[n], h.data)
  {
    hide Encode, DebugProgram.Decode, Run, Transfer, Loaded, Stored, Regno, SizeOf, IsWrite, IsTransfer, IsPostexec;
    var command := CommandWord(0x1000 + n, write, 1, postexec, size);
    CommandFields(0x1000 + n, write, 1, postexec, size);
    EmittedMeans(c, command, words, h);
    var p := ProgramOf(command);
    r := Run(p[..|p| - 1], h).value;
  }

  /** The same for a control and status register other than the scratch registers. */
  lemma CsrMeans(c: Config, csr: nat, write: nat, postexec: nat, size: nat, words: seq<nat>, h: Hart) returns (r: Hart)
    requires csr < 0x1000 && csr != 0x7b2 && csr != 0x7b3 && c.csrAccess
    requires write < 2 && postexec < 2 && 2 <= size <= 3 && HartOk(h)
    requires Begins(words, CommandWord(csr, write, 1, postexec, size))
    ensures HartOk(r) && Executes(words, CommandWord(csr, write, 1, postexec, size), h, r)
    ensures r.fpr == h.fpr && r.gpr == h.gpr
    ensures forall k | 0 <= k < 0x1000 && k != 0x7b2 && k != 0x7b3 :: r.csr[k] == if k == csr && write == 1 then Loaded(size, h.data) else h.csr[k]
    ensures r.data == if write == 1 then h.data else Stored(size, h.csr[csr], h.data)
  {
    hide Encode, DebugProgram.Decode, Run, Transfer, Loaded, Stored, Regno, SizeOf, IsWrite, IsTransfer, IsPostexec;
    var command := CommandWord(csr, write, 1, postexec, size);
    CommandFields(csr, write, 1, postexec, size);
    EmittedMeans(c, command, words, h);
    var p := ProgramOf(command);
    r := Run(p[..|p| - 1], h).value;
  }

  /** The same for a floating-point register. */
  lemma FloatMeans(c: Config, n: nat, write: nat, postexec: nat, size: nat, words: seq<nat>, h: Hart) returns (r: Hart)
    requires n < 32 && c.fprAccess && write < 2 && postexec < 2 && 2 <= size <= 3 && HartOk(h)
    requires Begins(words, CommandWord(0x1020 + n, write, 1, postexec, size))
    ensures HartOk(r) && Executes(words, CommandWord(0x1020 + n, write, 1, postexec, size), h, r)
    ensures r.gpr == h.gpr && forall k | 0 <= k < 0x1000 && k != DSCRATCH0 && k != DSCRATCH1 :: r.csr[k] == h.csr[k]
    ensures r.fpr == if write == 1 then h.fpr[n := Floaded(size, h.data)] else h.fpr
    ensures r.data == if write == 1 then h.data else Stored(size, h.fpr[n], h.data)
  {
    hide Encode, DebugProgram.Decode, Run, Transfer, Loaded, Floaded, Stored, Regno, SizeOf, IsWrite, IsTransfer, IsPostexec;
    var command := CommandWord(0x1020 + n, write, 1, postexec, size);
    CommandFields(0x1020 + n, write, 1, postexec, size);
    EmittedMeans(c, command, words, h);
    var p := ProgramOf(command);
    r := Run(p[..|p| - 1], h).value;
  }

  // ----- the answer to a command

  /** A command starts exactly when there is no error, none is busy, its hart is there and halted, and it is an
      access-register command without a transfer or with one that is supported. */
  lemma StartsExactly(c: Config, ids: seq<nat>, s: Dm, regno: nat, write: nat, transfer: nat, postexec: nat, size: nat)
    requires DmOk(c, ids, s) && s.command == CommandWord(regno, write, transfer, postexec, size)
    requires regno < 0x1_0000 && write < 2 && transfer < 2 && postexec < 2 && size < 8
    ensures Decide(c, ids, s) == Started <==>
              && s.cmderr == 0 && !s.busy && (s.hartsel < |s.available| ==> s.available[s.hartsel]) && s.halted[ids[s.hartsel]]
              && (transfer == 0
                  || ((size == 2 || size == 3)
                      && ((regno < 0x1000 && c.csrAccess) || 0x1000 <= regno < 0x1020 || (0x1020 <= regno < 0x1040 && c.fprAccess))))
  {
    CommandFields(regno, write, transfer, postexec, size);
  }

  /** Why a command is refused: 1 when another is busy, 4 when its hart is not there or not halted, 2 when it is not supported;
      an error that is there stays. */
  lemma RefusedBecause(c: Config, ids: seq<nat>, s: Dm)
    requires DmOk(c, ids, s)
    ensures var r, here := Perform(c, ids, s), s.hartsel < |s.available| ==> s.available[s.hartsel];
            && (s.cmderr != 0 ==> r == s)
            && (s.cmderr == 0 && s.busy ==> r == s.(cmderr := 1))
            && (s.cmderr == 0 && !s.busy && !here ==> r == s.(cmderr := 4))
            && (s.cmderr == 0 && !s.busy && here && s.command >= 0x100_0000 ==> r == s.(cmderr := 2))
            && (s.cmderr == 0 && !s.busy && here && s.command < 0x100_0000 && !s.halted[ids[s.hartsel]] ==> r == s.(cmderr := 4))
            && ((&& s.cmderr == 0 && !s.busy && here && s.command < 0x100_0000 && s.halted[ids[s.hartsel]] && IsTransfer(s.command)
                 && !Supported(c, s.command) && !(Regno(s.command) >= 0xc000 && Regno(s.command) % 2 == 1))
                ==> r == s.(cmderr := 2))
  {
    hide Regno, IsTransfer, Supported, IsWrite, IsPostexec, SizeOf;
  }

  /** A command that starts tells its hart, and only that, to go, and marks the module busy for the configured time. */
  lemma StartedIs(c: Config, ids: seq<nat>, s: Dm)
    requires DmOk(c, ids, s) && Decide(c, ids, s) == Started
    ensures Perform(c, ids, s) == s.(go := s.go[ids[s.hartsel] := true], rti := c.rti, completed := false, busy := true)
  {
    hide Decide;
  }

  /** A custom register written keeps the difference between the value and its number. */
  lemma CustomWritten(c: Config, ids: seq<nat>, s: Dm, n: nat, size: nat)
    requires DmOk(c, ids, s) && s.cmderr == 0 && !s.busy && Available(s, s.hartsel) && s.halted[Selected(ids, s)]
    requires n < 0x4000 && n % 2 == 1 && size < 8
    requires s.command == CommandWord(0xc000 + n, 1, 1, 0, size)
    ensures Perform(c, ids, s) == s.(customBase := (s.data[0] - n) % 0x1_0000_0000)
  {
    hide CommandWord, Regno, SizeOf, IsWrite, IsTransfer, IsPostexec;
    CommandFields(0xc000 + n, 1, 1, 0, size);
    assert (0xc000 + n) % 2 == 1;
  }

  lemma CustomRead(c: Config, ids: seq<nat>, s: Dm, m: nat, size: nat)
    requires DmOk(c, ids, s) && s.cmderr == 0 && !s.busy && Available(s, s.hartsel) && s.halted[Selected(ids, s)]
    requires m < 0x4000 && m % 2 == 1 && size < 8
    requires s.command == CommandWord(0xc000 + m, 0, 1, 0, size)
    ensures Perform(c, ids, s) == s.(data := [(m + s.customBase) % 0x1_0000_0000, 0])
  {
    hide CommandWord, Regno, SizeOf, IsWrite, IsTransfer, IsPostexec;
    CommandFields(0xc000 + m, 0, 1, 0, size);
    assert (0xc000 + m) % 2 == 1;
  }

  lemma SumOfRest(x: int, m: nat)
    ensures (m + x % 0x1_0000_0000) % 0x1_0000_0000 == (m + x) % 0x1_0000_0000
  {
  }

  /** A value written to a custom register is read back from it, and from others with the difference of their numbers. */
  lemma CustomReadBack(c: Config, ids: seq<nat>, s: Dm, n: nat, m: nat, size: nat)
    requires DmOk(c, ids, s) && s.cmderr == 0 && !s.busy && Available(s, s.hartsel) && s.halted[Selected(ids, s)]
    requires n < 0x4000 && n % 2 == 1 && m < 0x4000 && m % 2 == 1 && size < 8
    ensures var w := Perform(c, ids, s.(command := CommandWord(0xc000 + n, 1, 1, 0, size)));
            var r := Perform(c, ids, w.(command := CommandWord(0xc000 + m, 0, 1, 0, size)));
            w.data == s.data && r.data == [(s.data[0] - n + m) % 0x1_0000_0000, 0] && r.cmderr == 0 && !r.busy
  {
    hide CommandWord, Perform;
    var t := s.(command := CommandWord(0xc000 + n, 1, 1, 0, size));
    CustomWritten(c, ids, t, n, size);
    CustomRead(c, ids, Perform(c, ids, t).(command := CommandWord(0xc000 + m, 0, 1, 0, size)), m, size);
    SumOfRest(s.data[0] - n, m);
  }

  // ----- the register map

  /** The addresses of the debug module interface, for an idle module. */
  lemma WritesAt(c: Config, ids: seq<nat>, s: Dm, v: nat)
    requires DmOk(c, ids, s) && !s.busy
    ensures forall k: nat | k < 2 && !Bit(s.autoData, k) :: AfterWrite(c, ids, s, 4 + k, v) == s.(data := s.data[k := v])
    ensures forall k: nat | k < c.progbufsize && !Bit(s.autoProgbuf, k) ::
              AfterWrite(c, ids, s, 0x20 + k, v) == s.(progbuf := s.progbuf[k := v])
    ensures AfterWrite(c, ids, s, 0x17, v) == Perform(c, ids, s.(command := v))
    ensures AfterWrite(c, ids, s, 0x18, v) == s.(autoProgbuf := v / 0x1_0000, autoData := v % 0x1000)
    ensures AfterWrite(c, ids, s, 0x1f, v) == s.(available := [v % 2 == 1, v / 2 % 2 == 1])
  {
    hide Perform, Bit;
  }

  /** A word of data or program buffer whose bit for automatic execution is set starts the command after it is written. */
  lemma AutoExecutes(c: Config, ids: seq<nat>, s: Dm, v: nat)
    requires DmOk(c, ids, s) && !s.busy
    ensures forall k: nat | k < 2 && Bit(s.autoData, k) ::
              AfterWrite(c, ids, s, 4 + k, v) == Perform(c, ids, s.(data := s.data[k := v])) && AfterRead(c, ids, s, 4 + k) == Perform(c, ids, s)
    ensures forall k: nat | k < c.progbufsize && Bit(s.autoProgbuf, k) ::
              && AfterWrite(c, ids, s, 0x20 + k, v) == Perform(c, ids, s.(progbuf := s.progbuf[k := v]))
              && AfterRead(c, ids, s, 0x20 + k) == Perform(c, ids, s)
  {
    hide Perform, Bit;
  }

  /** Under a command an access to a data word is an error, and one to the program buffer is none; neither does anything else. */
  lemma BusyAccess(c: Config, ids: seq<nat>, s: Dm, k: nat, v: nat)
    requires DmOk(c, ids, s) && s.busy
    ensures k < 2 ==>
              AfterWrite(c, ids, s, 4 + k, v) == AfterRead(c, ids, s, 4 + k) == if s.cmderr == 0 then s.(cmderr := 1) else s
    ensures k < c.progbufsize ==> AfterWrite(c, ids, s, 0x20 + k, v) == AfterRead(c, ids, s, 0x20 + k) == s
  {
    hide Perform, Bit;
  }

  /** The hart that a write of dmcontrol selects: the upper ten bits of the index lie below the lower ten, and an index that is
      too large selects the last hart. */
  lemma SelectsHart(c: Config, ids: seq<nat>, s: Dm, high: nat, low: nat, rest: nat)
    requires DmOk(c, ids, s) && s.dmactive && high < 0x400 && low < 0x400 && rest < 0x20
    ensures var r := AfterWrite(c, ids, s, 0x10, low * 0x1_0000 + high * 0x40 + rest * 2 + 1);
            var index := high * 0x400 + low;
            r == s.(hartsel := if index < |ids| then index else |ids| - 1)
  {
    ControlFields(high, low, rest);
  }

  lemma ControlFields(high: nat, low: nat, rest: nat)
    requires high < 0x400 && low < 0x400 && rest < 0x20
    ensures var v := low * 0x1_0000 + high * 0x40 + rest * 2 + 1;
            v / 0x40 % 0x400 == high && v / 0x1_0000 % 0x400 == low && v % 2 == 1
  {
    var v := low * 0x1_0000 + high * 0x40 + rest * 2 + 1;
    assert v / 0x40 == low * 0x400 + high;
    assert v / 0x1_0000 == low;
  }

  /** Activating the module resets it, and an inactive one that stays so selects nothing. */
  lemma Activated(c: Config, ids: seq<nat>, s: Dm, v: nat)
    requires DmOk(c, ids, s) && !s.dmactive
    ensures var r := AfterWrite(c, ids, s, 0x10, v);
            if v % 2 == 0 then r == s
            else r.dmactive && !r.busy && r.cmderr == 0 && r.autoData == 0 && r.autoProgbuf == 0 && r.data == s.data && r.progbuf == s.progbuf
  {
  }

  // ----- the stores of a hart

  /** The mailboxes: a hart that goes is no longer told to, a hart that halts is halted, one that resumes is not, and a halt of
      the selected hart that is not told to go completes its command. */
  lemma Mailboxes(c: Config, ids: seq<nat>, s: Dm, id: nat)
    requires DmOk(c, ids, s) && id < |s.go|
    ensures Step(c, ids, s, Going(id)) == s.(go := s.go[id := false])
    ensures Step(c, ids, s, Resuming(id)) == s.(halted := s.halted[id := false])
    ensures Step(c, ids, s, Halted(id))
            == s.(halted := s.halted[id := true], completed := s.completed || (id == ids[s.hartsel] && !s.go[id]))
    ensures Step(c, ids, s, Exception) == if s.cmderr == 0 then s.(cmderr := 3) else s
  {
  }
}
