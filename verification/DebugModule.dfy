/** The debug module between a debugger and a hart (riscv/debug_module.cc): abstract commands, the flags of the
    debug ROM, and when a command is over. Section 3.6 of RISC-V External Debug Support, version 0.13.2. */
module DebugModule {
  import opened DebugProgram
  import opened DebugHart
  import opened Wrappers

  const DM_DATA0 := 0x04
  const DM_DMCONTROL := 0x10
  const DM_ABSTRACTCS := 0x16
  const DM_COMMAND := 0x17
  const DM_ABSTRACTAUTO := 0x18
  const DM_CUSTOM := 0x1f
  const DM_PROGBUF0 := 0x20
  const DATA_COUNT := 2

  const CMDERR_NONE := 0
  const CMDERR_BUSY := 1
  const CMDERR_NOTSUP := 2
  const CMDERR_EXCEPTION := 3
  const CMDERR_HALTRESUME := 4

  /** What the module keeps, but for the emitted words. Harts are known by their identifiers. */
  datatype Dm = Dm(data: seq<nat>, progbuf: seq<nat>, command: nat, autoData: nat, autoProgbuf: nat,
                   busy: bool, cmderr: nat, completed: bool, rti: nat, dmactive: bool, hartsel: nat,
                   go: seq<bool>, halted: seq<bool>, available: seq<bool>, customBase: nat)

  /** The harts that exist, in the order the debugger selects them. */
  predicate DmOk(c: Config, ids: seq<nat>, s: Dm) {
    && |s.data| == DATA_COUNT && c.progbufsize <= |s.progbuf| && s.hartsel < |ids| && s.cmderr < 8
    && |s.go| == |s.halted|
    && forall i | 0 <= i < |ids| :: ids[i] < |s.go|
  }

  function Selected(ids: seq<nat>, s: Dm): (id: nat)
    requires s.hartsel < |ids|
  {
    ids[s.hartsel]
  }

  /** Bit `i` of a register. */
  predicate Bit(n: nat, i: nat)
    decreases i
  {
    if i == 0 then n % 2 == 1 else Bit(n / 2, i - 1)
  }

  predicate Available(s: Dm, hart: nat) {
    hart < |s.available| ==> s.available[hart]
  }

  // ----- commands

  function Regno(command: nat): (r: nat) { command % 0x10000 }
  predicate IsWrite(command: nat) { command / 0x10000 % 2 == 1 }
  predicate IsTransfer(command: nat) { command / 0x20000 % 2 == 1 }
  predicate IsPostexec(command: nat) { command / 0x40000 % 2 == 1 }
  function SizeOf(command: nat): (s: nat) { command / 0x100000 % 8 }

  predicate IsCustom(regno: nat) {
    regno >= 0xc000 && regno % 2 == 1
  }

  predicate Supported(c: Config, command: nat) {
    var regno, size := Regno(command), SizeOf(command);
    2 <= size <= 3 && ((regno < 0x1000 && c.csrAccess) || 0x1000 <= regno < 0x1020 || (0x1020 <= regno < 0x1040 && c.fprAccess))
  }

  /** What perform_abstract_command does with a command. */
  datatype Outcome = Refused(cmderr: nat) | Custom | Started

  function Decide(c: Config, ids: seq<nat>, s: Dm): (o: Outcome)
    requires DmOk(c, ids, s)
  {
    if s.cmderr != CMDERR_NONE then Refused(s.cmderr)
    else if s.busy then Refused(CMDERR_BUSY)
    else if !Available(s, s.hartsel) then Refused(CMDERR_HALTRESUME)
    else if s.command / 0x1000000 != 0 then Refused(CMDERR_NOTSUP)
    else if !s.halted[Selected(ids, s)] then Refused(CMDERR_HALTRESUME)
    else if !IsTransfer(s.command) || Supported(c, s.command) then Started
    else if IsCustom(Regno(s.command)) then Custom
    else Refused(CMDERR_NOTSUP)
  }

  function Word32(n: int): (w: nat) {
    n % 0x1_0000_0000
  }

  function Perform(c: Config, ids: seq<nat>, s: Dm): (r: Dm)
    requires DmOk(c, ids, s)
    ensures DmOk(c, ids, r)
  {
    match Decide(c, ids, s)
    case Refused(e) => s.(cmderr := e)
    case Custom =>
      var n := Regno(s.command) - 0xc000;
      if IsWrite(s.command) then s.(customBase := Word32(s.data[0] - n)) else s.(data := [Word32(n + s.customBase), 0])
    case Started => s.(go := s.go[Selected(ids, s) := true], rti := c.rti, completed := false, busy := true)
  }

  /** The program of a command that starts: the transfer, and then a break or a jump to the program buffer. */
  function ProgramOf(command: nat): (p: seq<Instr>)
    requires IsTransfer(command) ==> Regno(command) < 0x1040
  {
    var body := if IsTransfer(command) then Transfer(IsWrite(command), SizeOf(command), Regno(command)) else [];
    body + [if IsPostexec(command) then Jal(4 * ABSTRACT_SIZE - 4 * |body|) else Ebreak]
  }

  /** The program fits the twelve words, and its jump leads from where it lies to the program buffer. */
  lemma ProgramFits(c: Config, command: nat)
    requires IsTransfer(command) ==> Supported(c, command)
    ensures ProgramOk(ProgramOf(command)) && |ProgramOf(command)| < ABSTRACT_SIZE
    ensures var p, buffer := ProgramOf(command), DATA_START - (if c.impebreak then 4 else 0) - 4 * c.progbufsize;
            var start := buffer - 4 * ABSTRACT_SIZE;
            IsPostexec(command) ==> p[|p| - 1].Jal? && start + 4 * (|p| - 1) + p[|p| - 1].offset == buffer
  {
    hide Transfer;
    if IsTransfer(command) {
      TransferOk(IsWrite(command), SizeOf(command), Regno(command));
    }
  }

  /** The words of a command that moves a register are read by the hart as its program, and executing it up to
      the last instruction moves the register and nothing else, but for the debug scratch registers. */
  lemma EmittedMeans(c: Config, command: nat, words: seq<nat>, h: Hart)
    requires IsTransfer(command) && Supported(c, command) && HartOk(h)
    requires Regno(command) == DSCRATCH0 ==> !IsWrite(command) && h.csr[DSCRATCH0] == h.gpr[S0]
    requires |ProgramOf(command)| <= |words|
    requires forall k | 0 <= k < |ProgramOf(command)| :: InstrOk(ProgramOf(command)[k]) && words[k] == Encode(ProgramOf(command)[k])
    ensures forall k | 0 <= k < |ProgramOf(command)| :: DebugProgram.Decode(words[k]) == Some(ProgramOf(command)[k])
    ensures var body := ProgramOf(command)[..|ProgramOf(command)| - 1];
            && ProgramOk(body) && Run(body, h).Some?
            && SameButScratch(Run(body, h).value, Moved(IsWrite(command), SizeOf(command), Regno(command), h))
  {
    hide Encode, DebugProgram.Decode, Run, Transfer, Moved, IsWrite;
    var p := ProgramOf(command);
    forall k | 0 <= k < |p| ensures DebugProgram.Decode(words[k]) == Some(p[k]) {
      DecodeEncode(p[k]);
    }
    TransferMeans(IsWrite(command), SizeOf(command), Regno(command), h);
    assert p[..|p| - 1] == Transfer(IsWrite(command), SizeOf(command), Regno(command));
  }

  // ----- steps

  datatype Event =
    | DmiRead(addr: nat)
    | DmiWrite(addr: nat, v: nat)
    | Idle
    | Halted(id: nat)
    | Going(id: nat)
    | Resuming(id: nat)
    | Exception
    | StoreData(k: nat, w: nat)
    | StoreProgbuf(k: nat, w: nat)

  predicate EventOk(c: Config, s: Dm, e: Event) {
    match e
    case Halted(id) => id < |s.go|
    case Going(id) => id < |s.go|
    case Resuming(id) => id < |s.go|
    case StoreData(k, _) => k < DATA_COUNT
    case StoreProgbuf(k, _) => k < |s.progbuf|
    case _ => true
  }

  /** The bits of `a` that `b` does not have, for 3-bit fields. */
  function Without(a: nat, b: nat): (r: nat)
    ensures r < 8
  {
    (if Bit(a, 0) && !Bit(b, 0) then 1 else 0) + (if Bit(a, 1) && !Bit(b, 1) then 2 else 0) + (if Bit(a, 2) && !Bit(b, 2) then 4 else 0)
  }

  /** A debugger access to data words, which may start a command on its own. */
  function AfterData(c: Config, ids: seq<nat>, s: Dm, i: nat): (r: Dm)
    requires DmOk(c, ids, s)
    ensures DmOk(c, ids, r)
  {
    if s.busy then (if s.cmderr == CMDERR_NONE then s.(cmderr := CMDERR_BUSY) else s)
    else if Bit(s.autoData, i) then Perform(c, ids, s) else s
  }

  function AfterProgbuf(c: Config, ids: seq<nat>, s: Dm, i: nat): (r: Dm)
    requires DmOk(c, ids, s)
    ensures DmOk(c, ids, r)
  {
    if !s.busy && Bit(s.autoProgbuf, i) then Perform(c, ids, s) else s
  }

  predicate Activates(s: Dm, v: nat) {
    !s.dmactive && v % 2 == 1
  }

  /** A write of dmcontrol: it may activate the module, which resets it, and select a hart. */
  function Control(ids: seq<nat>, s: Dm, v: nat): (r: Dm)
    requires |ids| > 0
  {
    var t := if Activates(s, v) then s.(busy := false, cmderr := CMDERR_NONE, autoData := 0, autoProgbuf := 0, hartsel := 0) else s;
    var u := t.(dmactive := v % 2 == 1);
    if u.dmactive then
      var sel := v / 0x40 % 0x400 * 0x400 + v / 0x10000 % 0x400;
      u.(hartsel := if sel < |ids| then sel else |ids| - 1)
    else u
  }

  function AfterWrite(c: Config, ids: seq<nat>, s: Dm, addr: nat, v: nat): (r: Dm)
    requires DmOk(c, ids, s)
    ensures DmOk(c, ids, r)
  {
    if DM_DATA0 <= addr < DM_DATA0 + DATA_COUNT then
      AfterData(c, ids, if s.busy then s else s.(data := s.data[addr - DM_DATA0 := v]), addr - DM_DATA0)
    else if DM_PROGBUF0 <= addr < DM_PROGBUF0 + c.progbufsize then
      AfterProgbuf(c, ids, if s.busy then s else s.(progbuf := s.progbuf[addr - DM_PROGBUF0 := v]), addr - DM_PROGBUF0)
    else if addr == DM_DMCONTROL then Control(ids, s, v)
    else if addr == DM_COMMAND then Perform(c, ids, s.(command := v))
    else if addr == DM_ABSTRACTCS then s.(cmderr := Without(s.cmderr, v / 0x100 % 8))
    else if addr == DM_ABSTRACTAUTO then s.(autoProgbuf := v / 0x10000, autoData := v % 0x1000)
    else if addr == DM_CUSTOM then s.(available := [v % 2 == 1, v / 2 % 2 == 1])
    else s
  }

  function AfterRead(c: Config, ids: seq<nat>, s: Dm, addr: nat): (r: Dm)
    requires DmOk(c, ids, s)
    ensures DmOk(c, ids, r)
  {
    if DM_DATA0 <= addr < DM_DATA0 + DATA_COUNT then AfterData(c, ids, s, addr - DM_DATA0)
    else if DM_PROGBUF0 <= addr < DM_PROGBUF0 + c.progbufsize then AfterProgbuf(c, ids, s, addr - DM_PROGBUF0)
    else s
  }

  function Step(c: Config, ids: seq<nat>, s: Dm, e: Event): (r: Dm)
    requires DmOk(c, ids, s) && EventOk(c, s, e)
    ensures DmOk(c, ids, r)
  {
    match e
    case DmiRead(addr) => AfterRead(c, ids, s, addr)
    case DmiWrite(addr, v) => AfterWrite(c, ids, s, addr, v)
    case Idle =>
      var rti := if s.rti > 0 then s.rti - 1 else 0;
      s.(rti := rti, busy := s.busy && !(rti == 0 && s.completed))
    case Halted(id) =>
      var t := s.(halted := s.halted[id := true]);
      if Selected(ids, s) == id && !s.go[id] then t.(completed := true) else t
    case Going(id) => s.(go := s.go[id := false])
    case Resuming(id) => s.(halted := s.halted[id := false])
    case Exception => if s.cmderr == CMDERR_NONE then s.(cmderr := CMDERR_EXCEPTION) else s
    case StoreData(k, w) => s.(data := s.data[k := w])
    case StoreProgbuf(k, w) => s.(progbuf := s.progbuf[k := w])
  }

  // ----- what every step keeps

  predicate FromDebugger(e: Event) {
    e.DmiRead? || e.DmiWrite?
  }

  /** Under a command only a store of the hart changes the data words or the program buffer. */
  lemma BusyKeepsBuffers(c: Config, ids: seq<nat>, s: Dm, e: Event)
    requires DmOk(c, ids, s) && EventOk(c, s, e) && s.busy
    ensures !e.StoreData? ==> Step(c, ids, s, e).data == s.data
    ensures !e.StoreProgbuf? ==> Step(c, ids, s, e).progbuf == s.progbuf
  {
    hide Bit, Without;
  }

  predicate ClearsError(s: Dm, e: Event) {
    e.DmiWrite? && (e.addr == DM_ABSTRACTCS || (e.addr == DM_DMCONTROL && Activates(s, e.v)))
  }

  /** An error stays until it is written away or the module is activated, and no command starts under it. */
  lemma ErrorStays(c: Config, ids: seq<nat>, s: Dm, e: Event)
    requires DmOk(c, ids, s) && EventOk(c, s, e) && s.cmderr != CMDERR_NONE && !ClearsError(s, e)
    ensures var r := Step(c, ids, s, e);
            && r.cmderr == s.cmderr && (r.busy ==> s.busy)
            && forall i | 0 <= i < |s.go| :: r.go[i] ==> s.go[i]
  {
    hide Bit, Without;
  }

  /** Writing ones to the error clears just those bits. */
  lemma ErrorCleared(c: Config, ids: seq<nat>, s: Dm, v: nat)
    requires DmOk(c, ids, s)
    ensures var r := Step(c, ids, s, DmiWrite(DM_ABSTRACTCS, v));
            forall i: nat | i < 3 :: Bit(r.cmderr, i) <==> Bit(s.cmderr, i) && !Bit(v / 0x100 % 8, i)
  {
    WithoutBits(s.cmderr, v / 0x100 % 8);
  }

  lemma WithoutBits(a: nat, b: nat)
    ensures Bit(Without(a, b), 0) <==> Bit(a, 0) && !Bit(b, 0)
    ensures Bit(Without(a, b), 1) <==> Bit(a, 1) && !Bit(b, 1)
    ensures Bit(Without(a, b), 2) <==> Bit(a, 2) && !Bit(b, 2)
  {
  }

  // ----- the handshake

  /** What has been seen of the selected hart since a command started: that it went, that it halted after
      that, and how many idle cycles have passed. */
  datatype Seen = Seen(went: bool, done: bool, idles: nat)

  function See(p: Seen, e: Event, sel: nat): (r: Seen) {
    match e
    case Going(id) => if id == sel then p.(went := true) else p
    case Halted(id) => if id == sel && p.went then p.(done := true) else p
    case Idle => p.(idles := p.idles + 1)
    case _ => p
  }

  predicate InCommand(c: Config, ids: seq<nat>, s: Dm, p: Seen)
    requires DmOk(c, ids, s)
  {
    && s.busy && s.go[Selected(ids, s)] == !p.went && (s.completed ==> p.done)
    && s.rti == if p.idles >= c.rti then 0 else c.rti - p.idles
  }

  /** A command starts with the hart told to go and nothing yet seen. */
  lemma CommandStarts(c: Config, ids: seq<nat>, s: Dm, e: Event)
    requires DmOk(c, ids, s) && EventOk(c, s, e) && !s.busy && Step(c, ids, s, e).busy
    ensures InCommand(c, ids, Step(c, ids, s, e), Seen(false, false, 0))
  {
    hide Bit, Without, Perform, InCommand, Control;
    var t := s;
    if e.DmiWrite? {
      ControlIdle(ids, s, e.v);
      t := if DM_DATA0 <= e.addr < DM_DATA0 + DATA_COUNT then s.(data := s.data[e.addr - DM_DATA0 := e.v])
           else if DM_PROGBUF0 <= e.addr < DM_PROGBUF0 + c.progbufsize then s.(progbuf := s.progbuf[e.addr - DM_PROGBUF0 := e.v])
           else s.(command := e.v);
    }
    if DmOk(c, ids, t) && Perform(c, ids, t).busy {
      PerformStarts(c, ids, t);
    }
  }

  lemma ControlIdle(ids: seq<nat>, s: Dm, v: nat)
    requires |ids| > 0
    ensures Control(ids, s, v).busy ==> s.busy
  {
  }

  lemma PerformStarts(c: Config, ids: seq<nat>, s: Dm)
    requires DmOk(c, ids, s) && !s.busy && Perform(c, ids, s).busy
    ensures InCommand(c, ids, Perform(c, ids, s), Seen(false, false, 0))
  {
    hide Bit;
  }

  predicate IsControl(e: Event) {
    e.DmiWrite? && e.addr == DM_DMCONTROL
  }

  lemma CommandGoesOn(c: Config, ids: seq<nat>, s: Dm, e: Event, p: Seen)
    requires DmOk(c, ids, s) && EventOk(c, s, e) && InCommand(c, ids, s, p) && !IsControl(e)
    ensures var r, q := Step(c, ids, s, e), See(p, e, Selected(ids, s));
            && Selected(ids, r) == Selected(ids, s)
            && if r.busy then InCommand(c, ids, r, q) else e.Idle? && p.done && q.idles >= c.rti
  {
    hide Bit, Without;
  }

  ghost predicate EventsOk(c: Config, s: Dm, es: seq<Event>) {
    forall k | 0 <= k < |es| :: EventOk(c, s, es[k])
  }

  predicate NoControl(es: seq<Event>) {
    forall k | 0 <= k < |es| :: !IsControl(es[k])
  }

  lemma EventsOkAfter(c: Config, ids: seq<nat>, s: Dm, e: Event, es: seq<Event>)
    requires DmOk(c, ids, s) && EventOk(c, s, e) && EventsOk(c, s, es)
    ensures EventsOk(c, Step(c, ids, s, e), es)
  {
    hide Bit, Without, IsControl;
    SameShape(c, ids, s, e);
  }

  lemma SameShape(c: Config, ids: seq<nat>, s: Dm, e: Event)
    requires DmOk(c, ids, s) && EventOk(c, s, e)
    ensures |Step(c, ids, s, e).go| == |s.go| && |Step(c, ids, s, e).progbuf| == |s.progbuf|
  {
    hide Bit, Without, Decide, Control;
    ControlShape(ids, s, if e.DmiWrite? then e.v else 0);
  }

  lemma ControlShape(ids: seq<nat>, s: Dm, v: nat)
    requires |ids| > 0
    ensures Control(ids, s, v).go == s.go && Control(ids, s, v).progbuf == s.progbuf
  {
  }

  /** The events of one command: the module is busy before every one of them. */
  ghost predicate BusyThroughout(c: Config, ids: seq<nat>, s: Dm, es: seq<Event>)
    requires DmOk(c, ids, s) && EventsOk(c, s, es)
    decreases |es|
  {
    es == [] || (s.busy && (EventsOkAfter(c, ids, s, es[0], es[1..]); BusyThroughout(c, ids, Step(c, ids, s, es[0]), es[1..])))
  }

  ghost function RunAll(c: Config, ids: seq<nat>, s: Dm, es: seq<Event>): (r: Dm)
    requires DmOk(c, ids, s) && EventsOk(c, s, es)
    ensures DmOk(c, ids, r)
    decreases |es|
  {
    if es == [] then s
    else
      EventsOkAfter(c, ids, s, es[0], es[1..]);
      RunAll(c, ids, Step(c, ids, s, es[0]), es[1..])
  }

  function SeeAll(p: Seen, es: seq<Event>, sel: nat): (r: Seen)
    decreases |es|
  {
    if es == [] then p else SeeAll(See(p, es[0], sel), es[1..], sel)
  }

  function Idles(es: seq<Event>): (n: nat) {
    if es == [] then 0 else (if es[0].Idle? then 1 else 0) + Idles(es[1..])
  }

  lemma {:induction false} IdlesSeen(p: Seen, es: seq<Event>, sel: nat)
    ensures SeeAll(p, es, sel).idles == p.idles + Idles(es)
    decreases |es|
  {
    if es != [] {
      IdlesSeen(See(p, es[0], sel), es[1..], sel);
    }
  }

  /** Having seen the hart done means that it stored to GOING and, after that, to HALTED. */
  lemma {:induction false} DoneSeen(p: Seen, es: seq<Event>, sel: nat)
    ensures SeeAll(p, es, sel).done && !p.done ==>
              exists j :: 0 <= j < |es| && es[j] == Halted(sel) && (p.went || exists i :: 0 <= i < j && es[i] == Going(sel))
    ensures SeeAll(p, es, sel).went && !p.went ==> exists i :: 0 <= i < |es| && es[i] == Going(sel)
    decreases |es|
  {
    if es != [] {
      var q, rest := See(p, es[0], sel), es[1..];
      DoneSeen(q, rest, sel);
      if SeeAll(p, es, sel).done && !p.done {
        if q.done {
          assert es[0] == Halted(sel) && p.went;
        } else {
          var j :| 0 <= j < |rest| && rest[j] == Halted(sel) && (q.went || exists i :: 0 <= i < j && rest[i] == Going(sel));
          assert es[j + 1] == Halted(sel);
          if !p.went {
            if q.went {
              assert es[0] == Going(sel);
            } else {
              var i :| 0 <= i < j && rest[i] == Going(sel);
              assert es[i + 1] == Going(sel);
            }
          }
        }
      }
      if SeeAll(p, es, sel).went && !p.went && !q.went {
        var i :| 0 <= i < |rest| && rest[i] == Going(sel);
        assert es[i + 1] == Going(sel);
      }
    }
  }

  lemma {:induction false} CommandEnds(c: Config, ids: seq<nat>, s: Dm, es: seq<Event>, p: Seen)
    requires DmOk(c, ids, s) && EventsOk(c, s, es) && NoControl(es) && InCommand(c, ids, s, p)
    requires BusyThroughout(c, ids, s, es) && !RunAll(c, ids, s, es).busy
    ensures es != [] && es[|es| - 1].Idle?
    ensures var q := SeeAll(p, es, Selected(ids, s)); q.done && q.idles >= c.rti
    decreases |es|
  {
    hide Step, InCommand, EventsOk, NoControl, Selected;
    if es == [] {
      InCommandBusy(c, ids, s, p);
    } else {
      EventsOkFirst(c, s, es);
      EventsOkAfter(c, ids, s, es[0], es[1..]);
      CommandGoesOn(c, ids, s, es[0], p);
      var r := Step(c, ids, s, es[0]);
      if r.busy {
        CommandEnds(c, ids, r, es[1..], See(p, es[0], Selected(ids, s)));
      }
    }
  }

  lemma InCommandBusy(c: Config, ids: seq<nat>, s: Dm, p: Seen)
    requires DmOk(c, ids, s) && InCommand(c, ids, s, p)
    ensures s.busy
  {
  }

  lemma EventsOkFirst(c: Config, s: Dm, es: seq<Event>)
    requires EventsOk(c, s, es) && es != []
    ensures EventOk(c, s, es[0]) && EventsOk(c, s, es[1..])
    ensures NoControl(es) ==> !IsControl(es[0]) && NoControl(es[1..])
  {
  }

  /** Over every run without a write of dmcontrol, a command that started is over only in an idle cycle, after
      the selected hart stored to GOING and then to HALTED, and after the configured number of idle cycles. */
  lemma BusyFalls(c: Config, ids: seq<nat>, s: Dm, e: Event, es: seq<Event>)
    requires DmOk(c, ids, s) && EventOk(c, s, e) && !s.busy && Step(c, ids, s, e).busy
    requires EventsOk(c, Step(c, ids, s, e), es) && NoControl(es) && BusyThroughout(c, ids, Step(c, ids, s, e), es)
    requires !RunAll(c, ids, Step(c, ids, s, e), es).busy
    ensures es != [] && es[|es| - 1].Idle? && Idles(es) >= c.rti
    ensures var sel := Selected(ids, Step(c, ids, s, e));
            exists i, j :: 0 <= i < j < |es| && es[i] == Going(sel) && es[j] == Halted(sel)
  {
    hide Step, InCommand, EventsOk, NoControl, BusyThroughout, RunAll;
    var r, p := Step(c, ids, s, e), Seen(false, false, 0);
    CommandStarts(c, ids, s, e);
    CommandEnds(c, ids, r, es, p);
    IdlesSeen(p, es, Selected(ids, r));
    DoneSeen(p, es, Selected(ids, r));
  }

  // ----- what whole runs keep

  /** As long as the module is busy, no run without stores of the hart changes the data words or the program buffer. */
  lemma {:induction false} BuffersKept(c: Config, ids: seq<nat>, s: Dm, es: seq<Event>)
    requires DmOk(c, ids, s) && EventsOk(c, s, es) && BusyThroughout(c, ids, s, es)
    ensures (forall e | e in es :: !e.StoreData?) ==> RunAll(c, ids, s, es).data == s.data
    ensures (forall e | e in es :: !e.StoreProgbuf?) ==> RunAll(c, ids, s, es).progbuf == s.progbuf
    decreases |es|
  {
    hide Step, EventsOk;
    if es != [] {
      EventsOkFirst(c, s, es);
      EventsOkAfter(c, ids, s, es[0], es[1..]);
      BusyKeepsBuffers(c, ids, s, es[0]);
      BuffersKept(c, ids, Step(c, ids, s, es[0]), es[1..]);
    }
  }

  /** No event of the run clears an error or activates the module. */
  ghost predicate NothingClears(c: Config, ids: seq<nat>, s: Dm, es: seq<Event>)
    requires DmOk(c, ids, s) && EventsOk(c, s, es)
    decreases |es|
  {
    es == []
    || (!ClearsError(s, es[0])
        && (EventsOkAfter(c, ids, s, es[0], es[1..]); NothingClears(c, ids, Step(c, ids, s, es[0]), es[1..])))
  }

  /** Over every run that does not clear it an error stays, and no command starts under it: an idle module stays idle,
      and no hart is told to go. */
  lemma {:induction false} ErrorKept(c: Config, ids: seq<nat>, s: Dm, es: seq<Event>)
    requires DmOk(c, ids, s) && EventsOk(c, s, es) && s.cmderr != CMDERR_NONE && NothingClears(c, ids, s, es)
    ensures var r := RunAll(c, ids, s, es);
            && r.cmderr == s.cmderr && (r.busy ==> s.busy) && |r.go| == |s.go|
            && forall i | 0 <= i < |s.go| :: r.go[i] ==> s.go[i]
    decreases |es|
  {
    hide Step, EventsOk, ClearsError;
    if es != [] {
      EventsOkFirst(c, s, es);
      EventsOkAfter(c, ids, s, es[0], es[1..]);
      ErrorStays(c, ids, s, es[0]);
      SameShape(c, ids, s, es[0]);
      ErrorKept(c, ids, Step(c, ids, s, es[0]), es[1..]);
    }
  }
}
