/** The debug module as the source keeps it (riscv/debug_module.cc), proved against the steps of DebugModule. */
module DebugDevice {
  import opened DebugProgram
  import opened DebugHart
  import opened DebugModule
  import opened Wrappers

  class Device {
    const config: Config
    const ids: seq<nat>
    /** debug_abstract, as words. */
    const program: array<nat>
    var data: seq<nat>
    var progbuf: seq<nat>
    var command: nat
    var autoData: nat
    var autoProgbuf: nat
    var busy: bool
    var cmderr: nat
    var completed: bool
    var rti: nat
    var dmactive: bool
    var hartsel: nat
    var go: seq<bool>
    var halted: seq<bool>
    var available: seq<bool>
    var customBase: nat

    ghost function State(): (s: Dm)
      reads this
    {
      Dm(data, progbuf, command, autoData, autoProgbuf, busy, cmderr, completed, rti, dmactive, hartsel, go, halted, available, customBase)
    }

    ghost predicate Ok()
      reads this
    {
      program.Length == ABSTRACT_SIZE && DmOk(config, ids, State())
    }

    /** The words of a program lie at the start of debug_abstract. */
    ghost predicate Emitted(p: seq<Instr>)
      reads program
    {
      |p| <= program.Length && forall k | 0 <= k < |p| :: InstrOk(p[k]) && program[k] == Encode(p[k])
    }

    /** debug_abstract holds the program of the command. */
    ghost predicate Programmed()
      reads this, program
    {
      (IsTransfer(command) ==> Supported(config, command)) && Emitted(ProgramOf(command))
    }

    constructor (config: Config, ids: seq<nat>, harts: nat)
      requires ids != [] && forall i | 0 <= i < |ids| :: ids[i] < harts
      ensures Ok() && !busy && cmderr == CMDERR_NONE && fresh(program) && this.config == config && this.ids == ids
      ensures |go| == harts
    {
      this.config, this.ids := config, ids;
      program := new nat[ABSTRACT_SIZE](_ => 0);
      data := [0, 0];
      progbuf := seq(config.progbufsize, _ => 0) + if config.impebreak then [Encode(Ebreak)] else [];
      command, autoData, autoProgbuf, cmderr, rti, hartsel, customBase := 0, 0, 0, CMDERR_NONE, 0, 0, 0;
      busy, completed, dmactive := false, false, false;
      go := seq(harts, _ => false);
      halted := seq(harts, _ => false);
      available := [true, true];
    }

    /** write32(debug_abstract, i++, ...), for some instructions. */
    method Emit(ghost p: seq<Instr>, i: nat, q: seq<Instr>) returns (n: nat)
      requires |p| == i && i + |q| <= program.Length && ProgramOk(q) && Emitted(p)
      modifies program
      ensures n == i + |q| && Emitted(p + q)
    {
      n := i;
      while n < i + |q|
        invariant i <= n <= i + |q|
        invariant forall k | 0 <= k < |p| :: program[k] == Encode(p[k])
        invariant forall k | 0 <= k < n - i :: program[i + k] == Encode(q[k])
      {
        program[n] := Encode(q[n - i]);
        n := n + 1;
      }
    }

    /** The part of perform_abstract_command that emits the instructions which move a register. */
    method EmitMove(ghost p: seq<Instr>, n: nat, write: bool, size: nat, regno: nat) returns (ok: bool, i: nat)
      requires program.Length == ABSTRACT_SIZE && |p| == n && n <= 5 && Emitted(p) && regno < 0x1040
      modifies program
      ensures ok <==> 2 <= size <= 3
      ensures ok ==> i == n + |Move(write, size, regno)| && Emitted(p + Move(write, size, regno))
    {
      hide Encode;
      ok, i := 2 <= size <= 3, n;
      if regno < 0x1000 {
        if write {
          if !ok {
            return;
          }
          i := Emit(p, i, [Load(size, S0, DATA_START)]);
          i := Emit(p + [Load(size, S0, DATA_START)], i, [Csrrw(ZERO, S0, regno)]);
          assert p + [Load(size, S0, DATA_START)] + [Csrrw(ZERO, S0, regno)] == p + Move(write, size, regno);
        } else {
          i := Emit(p, i, [Csrrs(S0, ZERO, regno)]);
          if !ok {
            return;
          }
          i := Emit(p + [Csrrs(S0, ZERO, regno)], i, [Store(size, S0, DATA_START)]);
          assert p + [Csrrs(S0, ZERO, regno)] + [Store(size, S0, DATA_START)] == p + Move(write, size, regno);
        }
      } else if ok {
        i := Emit(p, i, Move(write, size, regno));
      }
    }

    /** The transfer part of perform_abstract_command: it emits the instructions, or ends the command at once. */
    method EmitTransfer() returns (ok: bool, i: nat)
      requires Ok() && cmderr == CMDERR_NONE && !busy && Available(State(), hartsel)
      requires command / 0x1000000 == 0 && halted[Selected(ids, State())] && IsTransfer(command)
      modifies program, this`cmderr, this`customBase, this`data
      ensures ok <==> Supported(config, command)
      ensures ok ==> State() == old(State()) && i == |Transfer(IsWrite(command), SizeOf(command), Regno(command))|
                     && Emitted(Transfer(IsWrite(command), SizeOf(command), Regno(command)))
      ensures !ok ==> State() == Perform(config, ids, old(State()))
    {
      hide Encode, Bit, Move, SaveFpu, RestoreFpu;
      var write, size, regno := IsWrite(command), SizeOf(command), Regno(command);
      ghost var p: seq<Instr> := [];
      i := 0;
      FpuPrograms();
      if IsFpuReg(regno) {
        i := Emit(p, i, SaveFpu());
        p := SaveFpu();
        assert [] + SaveFpu() == SaveFpu();
      }
      if (regno < 0x1000 && config.csrAccess) || 0x1000 <= regno < 0x1020 || (0x1020 <= regno < 0x1040 && config.fprAccess) {
        if regno < 0x1000 && !IsFpuReg(regno) {
          i := Emit(p, i, [Csrrw(ZERO, S0, DSCRATCH0)]);
          p := p + [Csrrw(ZERO, S0, DSCRATCH0)];
        }
        ok, i := EmitMove(p, i, write, size, regno);
        if !ok {
          cmderr := CMDERR_NOTSUP;
          return;
        }
        MoveShort(write, size, regno);
        p := p + Move(write, size, regno);
        if regno < 0x1000 && !IsFpuReg(regno) {
          i := Emit(p, i, [Csrrs(S0, ZERO, DSCRATCH0)]);
          p := p + [Csrrs(S0, ZERO, DSCRATCH0)];
        }
      } else if IsCustom(regno) {
        var n := regno - 0xc000;
        if write {
          customBase := Word32(data[0] - n);
        } else {
          data := [Word32(n + customBase), 0];
        }
        return false, i;
      } else {
        cmderr := CMDERR_NOTSUP;
        return false, i;
      }
      if IsFpuReg(regno) {
        i := Emit(p, i, RestoreFpu());
        p := p + RestoreFpu();
      }
      assert p == Transfer(write, size, regno);
    }

    /** The checks at the head of perform_abstract_command. */
    method Admit() returns (ok: bool)
      requires Ok()
      modifies this`cmderr
      ensures ok <==> old(cmderr) == CMDERR_NONE && !busy && Available(old(State()), hartsel) && command / 0x1000000 == 0
                      && halted[Selected(ids, old(State()))]
      ensures ok ==> State() == old(State())
      ensures !ok ==> State() == Perform(config, ids, old(State()))
    {
      hide IsTransfer, Supported, IsCustom;
      ok := false;
      if cmderr != CMDERR_NONE {
        return;
      }
      if busy {
        cmderr := CMDERR_BUSY;
        return;
      }
      if !(hartsel < |available| ==> available[hartsel]) {
        cmderr := CMDERR_HALTRESUME;
        return;
      }
      if command / 0x1000000 != 0 {
        cmderr := CMDERR_NOTSUP;
        return;
      }
      if !halted[ids[hartsel]] {
        cmderr := CMDERR_HALTRESUME;
        return;
      }
      ok := true;
    }

    /** The end of perform_abstract_command: the last instruction, and the hart is told to go. */
    method Launch(i: nat, ghost p: seq<Instr>)
      requires Ok() && Decide(config, ids, State()).Started? && |p| == i && Emitted(p)
      requires p == if IsTransfer(command) then Transfer(IsWrite(command), SizeOf(command), Regno(command)) else []
      modifies this`go, this`rti, this`completed, this`busy, program
      ensures Ok() && State() == Perform(config, ids, old(State())) && Programmed()
    {
      hide Encode, Bit, Transfer;
      ProgramFits(config, command);
      var last := if IsPostexec(command) then Jal(4 * ABSTRACT_SIZE - 4 * i) else Ebreak;
      assert p + [last] == ProgramOf(command);
      var n := Emit(p, i, [last]);
      go := go[ids[hartsel] := true];
      rti := config.rti;
      completed := false;
      busy := true;
    }

    /** perform_abstract_command */
    method PerformAbstractCommand()
      requires Ok()
      modifies this, program
      ensures Ok() && State() == Perform(config, ids, old(State()))
      ensures busy && !old(busy) ==> Programmed()
    {
      hide Encode, Bit, Transfer, Perform, ProgramOf, IsTransfer, IsWrite, SizeOf, IsCustom;
      var ok := Admit();
      if !ok {
        return;
      }
      var i := 0;
      if IsTransfer(command) {
        ok, i := EmitTransfer();
        if !ok {
          return;
        }
        Launch(i, Transfer(IsWrite(command), SizeOf(command), Regno(command)));
      } else {
        Launch(0, []);
      }
    }

    // ----- accesses of the debugger

    /** dmi_write, for the registers that concern commands */
    method DmiWrite(addr: nat, v: nat)
      requires Ok()
      modifies this, program
      ensures Ok() && State() == AfterWrite(config, ids, old(State()), addr, v)
      ensures busy && !old(busy) ==> Programmed()
    {
      hide Perform, Bit, Without;
      if DM_DATA0 <= addr < DM_DATA0 + DATA_COUNT {
        var i := addr - DM_DATA0;
        if !busy {
          data := data[i := v];
        }
        DataAccessed(i);
      } else if DM_PROGBUF0 <= addr < DM_PROGBUF0 + config.progbufsize {
        var i := addr - DM_PROGBUF0;
        if !busy {
          progbuf := progbuf[i := v];
        }
        ProgbufAccessed(i);
      } else if addr == DM_DMCONTROL {
        WriteControl(v);
      } else if addr == DM_COMMAND {
        command := v;
        PerformAbstractCommand();
      } else if addr == DM_ABSTRACTCS {
        cmderr := Without(cmderr, v / 0x100 % 8);
      } else if addr == DM_ABSTRACTAUTO {
        autoProgbuf := v / 0x10000;
        autoData := v % 0x1000;
      } else if addr == DM_CUSTOM {
        available := [v % 2 == 1, v / 2 % 2 == 1];
      }
    }

    /** What a read or a write of a data word does besides. */
    method DataAccessed(i: nat)
      requires Ok()
      modifies this, program
      ensures Ok() && State() == AfterData(config, ids, old(State()), i)
      ensures busy && !old(busy) ==> Programmed()
    {
      hide Perform, Bit;
      if busy && cmderr == CMDERR_NONE {
        cmderr := CMDERR_BUSY;
      }
      if !busy && Bit(autoData, i) {
        PerformAbstractCommand();
      }
    }

    method ProgbufAccessed(i: nat)
      requires Ok()
      modifies this, program
      ensures Ok() && State() == AfterProgbuf(config, ids, old(State()), i)
      ensures busy && !old(busy) ==> Programmed()
    {
      hide Perform, Bit;
      if !busy && Bit(autoProgbuf, i) {
        PerformAbstractCommand();
      }
    }

    method WriteControl(v: nat)
      requires Ok()
      modifies this
      ensures Ok() && State() == Control(ids, old(State()), v)
    {
      if !dmactive && v % 2 == 1 {
        hartsel := 0;
        busy, cmderr := false, CMDERR_NONE;
        autoData, autoProgbuf := 0, 0;
      }
      dmactive := v % 2 == 1;
      if !dmactive {
        return;
      }
      var sel := v / 0x40 % 0x400 * 0x400 + v / 0x10000 % 0x400;
      hartsel := if sel < |ids| then sel else |ids| - 1;
    }

    /** dmi_read, for the data words and the program buffer; a busy module answers with ones. */
    method DmiRead(addr: nat) returns (v: nat)
      requires Ok()
      modifies this, program
      ensures Ok() && State() == AfterRead(config, ids, old(State()), addr)
      ensures busy && !old(busy) ==> Programmed()
      ensures DM_DATA0 <= addr < DM_DATA0 + DATA_COUNT ==> v == if old(busy) then 0xFFFF_FFFF else old(data)[addr - DM_DATA0]
      ensures DM_PROGBUF0 <= addr < DM_PROGBUF0 + config.progbufsize ==>
                v == if old(busy) then 0xFFFF_FFFF else old(progbuf)[addr - DM_PROGBUF0]
    {
      hide Perform, Bit;
      v := 0;
      if DM_DATA0 <= addr < DM_DATA0 + DATA_COUNT {
        v := if busy then 0xFFFF_FFFF else data[addr - DM_DATA0];
        DataAccessed(addr - DM_DATA0);
      } else if DM_PROGBUF0 <= addr < DM_PROGBUF0 + config.progbufsize {
        v := if busy then 0xFFFF_FFFF else progbuf[addr - DM_PROGBUF0];
        ProgbufAccessed(addr - DM_PROGBUF0);
      }
    }

    /** run_test_idle */
    method RunTestIdle()
      requires Ok()
      modifies this`rti, this`busy
      ensures Ok() && State() == Step(config, ids, old(State()), Idle)
    {
      if rti > 0 {
        rti := rti - 1;
      }
      if rti == 0 && busy && completed {
        busy := false;
      }
    }

    // ----- stores of the harts

    /** store, a word at a time: to the mailboxes of the debug ROM, the data words and the program buffer */
    method StoreFromHart(e: Event)
      requires Ok() && EventOk(config, State(), e) && !FromDebugger(e) && !e.Idle?
      modifies this`halted, this`completed, this`go, this`cmderr, this`data, this`progbuf
      ensures Ok() && State() == Step(config, ids, old(State()), e)
    {
      match e
      case Halted(id) =>
        if !halted[id] {
          halted := halted[id := true];
        }
        if ids[hartsel] == id {
          if !go[id] {
            completed := true;
          }
        }
        assert old(halted[id]) ==> old(halted)[id := true] == old(halted);
      case Going(id) => go := go[id := false];
      case Resuming(id) => halted := halted[id := false];
      case Exception =>
        if cmderr == CMDERR_NONE {
          cmderr := CMDERR_EXCEPTION;
        }
      case StoreData(k, w) => data := data[k := w];
      case StoreProgbuf(k, w) => progbuf := progbuf[k := w];
    }
  }

  lemma FpuPrograms()
    ensures ProgramOk(SaveFpu()) && |SaveFpu()| == 5 && ProgramOk(RestoreFpu()) && |RestoreFpu()| == 3
  {
  }

  lemma MoveShort(write: bool, size: nat, regno: nat)
    requires regno < 0x1040
    ensures |Move(write, size, regno)| <= 2
  {
  }
}
