/** Handing control between threads (fesvr/context.cc, the pthread variant).

Every context owns a flag, a mutex and a condition variable. Each atomic action of `init`, `wrapper`
and `switch_to` is one step of a state machine, so a run is any interleaving of the threads' steps. */
module Context {
  import opened Wrappers

  /** What a thread does next; the comments name the statement. */
  datatype Pc =
    | Absent             // constructed, but init has not created its thread
    | User               // in user code, free to call init or switch_to, or to return
    | Returned           // func has returned and the thread is gone
    | SwClear(t: nat)    // cur->flag = 0
    | SwSet(t: nat)      // this->flag = 1
    | SwLock(t: nat)     // lock this->mutex
    | SwSignal(t: nat)   // signal this->cond
    | SwUnlock(t: nat)   // unlock this->mutex
    | SwLockSelf         // lock cur->mutex, also on waking from the wait
    | SwCheck            // while (!cur->flag)
    | SwBlock            // call pthread_cond_wait
    | SwWait             // blocked in it, the mutex released
    | SwUnlockSelf       // unlock cur->mutex
    | InitLock(c: nat)   // lock creator->mutex
    | InitClear(c: nat)  // creator->flag = 0
    | InitCreate(c: nat) // create the thread, which starts in wrapper
    | InitCheck          // while (!creator->flag)
    | InitBlock          // call pthread_cond_wait
    | InitWait           // blocked in it
    | InitRelock         // woken, lock creator->mutex again
    | InitUnlock         // unlock creator->mutex

  datatype Ctx = Ctx(pc: Pc, flag: bool, mutex: Option<nat>)

  type State = seq<Ctx>

  /** The main thread, made a context by current(). */
  const START: State := [Ctx(User, true, None)]

  // ----- steps

  /** One step of thread `i` inside the library; None when it is blocked, or in user code. */
  function Go(s: State, i: nat): (r: Option<State>)
    requires i < |s|
  {
    var x := s[i];
    match x.pc
    case SwClear(t) => Some(s[i := x.(flag := false, pc := SwSet(t))])
    case SwSet(t) =>
      if t >= |s| || t == i then None else Some(s[t := s[t].(flag := true)][i := x.(pc := SwLock(t))])
    case SwLock(t) =>
      if t >= |s| || t == i || s[t].mutex.Some? then None
      else Some(s[t := s[t].(mutex := Some(i))][i := x.(pc := SwSignal(t))])
    case SwSignal(t) =>
      if t >= |s| || t == i then None else Some(s[t := s[t].(pc := Woken(s[t].pc))][i := x.(pc := SwUnlock(t))])
    case SwUnlock(t) =>
      if t >= |s| || t == i then None else Some(s[t := s[t].(mutex := None)][i := x.(pc := SwLockSelf)])
    case SwLockSelf => if x.mutex.Some? then None else Some(s[i := x.(mutex := Some(i), pc := SwCheck)])
    case SwCheck => Some(s[i := x.(pc := if x.flag then SwUnlockSelf else SwBlock)])
    case SwBlock => Some(s[i := x.(mutex := None, pc := SwWait)])
    case SwUnlockSelf => Some(s[i := x.(mutex := None, pc := User)])
    case InitLock(c) => if x.mutex.Some? then None else Some(s[i := x.(mutex := Some(i), pc := InitClear(c))])
    case InitClear(c) => Some(s[i := x.(flag := false, pc := InitCreate(c))])
    case InitCreate(c) =>
      if c >= |s| || c == i then None else Some(s[c := s[c].(pc := SwClear(i))][i := x.(pc := InitCheck)])
    case InitCheck => Some(s[i := x.(pc := if x.flag then InitUnlock else InitBlock)])
    case InitBlock => Some(s[i := x.(mutex := None, pc := InitWait)])
    case InitRelock => if x.mutex.Some? then None else Some(s[i := x.(mutex := Some(i), pc := InitCheck)])
    case InitUnlock => Some(s[i := x.(mutex := None, pc := User)])
    case _ => None
  }

  /** Waking a thread that may be waiting. */
  function Woken(pc: Pc): (r: Pc) {
    if pc.SwWait? then SwLockSelf else if pc.InitWait? then InitRelock else pc
  }

  /** Step: inside the library. Wake: a spurious wakeup, which POSIX allows. The others are what user
      code may do: construct a context, call init or switch_to on one, or return from func. */
  datatype Action = Step | Wake | Construct | Init(c: nat) | Switch(t: nat) | Return

  /** What an action leads to; None when it is not possible, or one of the two asserts fails. */
  function Do(s: State, i: nat, a: Action): (r: Option<State>) {
    if i >= |s| then None
    else
      match a
      case Step => Go(s, i)
      case Wake => if s[i].pc.SwWait? || s[i].pc.InitWait? then Some(s[i := s[i].(pc := Woken(s[i].pc))]) else None
      case Construct => if s[i].pc.User? then Some(s + [Ctx(Absent, false, None)]) else None
      case Init(c) =>
        if s[i].pc.User? && c < |s| && s[c].pc.Absent? && !s[c].flag then Some(s[i := s[i].(pc := InitLock(c))]) else None
      case Switch(t) => if s[i].pc.User? && t < |s| && t != i then Some(s[i := s[i].(pc := SwClear(t))]) else None
      case Return => if s[i].pc.User? then Some(s[i := s[i].(pc := Returned)]) else None
  }

  /** A run: which thread acts, and how. */
  function Run(s: State, trace: seq<(nat, Action)>): (r: Option<State>)
    decreases |trace|
  {
    if trace == [] then Some(s)
    else
      var n := Do(s, trace[0].0, trace[0].1);
      if n.None? then None else Run(n.value, trace[1..])
  }

  // ----- invariants

  /** The right to run: a set flag, or being on the way from clearing one's own to setting another's. */
  predicate Carries(x: Ctx) {
    x.flag || x.pc.SwSet? || x.pc.InitCreate? || x.pc.SwClear?
  }

  /** There is exactly one right to run, whatever has happened. */
  ghost predicate OneToken(s: State) {
    exists k: nat :: HeldBy(s, k)
  }

  ghost predicate HeldBy(s: State, k: nat) {
    k < |s| && Carries(s[k]) && forall i | 0 <= i < |s| && i != k :: !Carries(s[i])
  }

  /** What a thread's place in the code says about its own flag and the context it refers to. */
  predicate Placed(s: State, i: nat)
    requires i < |s|
  {
    match s[i].pc
    case User => s[i].flag
    case Returned => s[i].flag
    case SwUnlockSelf => s[i].flag
    case InitUnlock => s[i].flag
    case SwClear(t) => t < |s| && t != i
    case SwSet(t) => t < |s| && t != i && !s[i].flag
    case SwLock(t) => t < |s| && t != i
    case SwSignal(t) => t < |s| && t != i
    case SwUnlock(t) => t < |s| && t != i
    case InitLock(c) => s[i].flag && c < |s| && c != i && s[c].pc.Absent?
    case InitClear(c) => s[i].flag && c < |s| && c != i && s[c].pc.Absent?
    case InitCreate(c) => !s[i].flag && c < |s| && c != i && s[c].pc.Absent?
    case _ => true
  }

  /** Thread `k` is at a place where it holds the mutex of context `m`. */
  predicate Holds(s: State, k: nat, m: nat) {
    k < |s| &&
    match s[k].pc
    case SwSignal(t) => m == t
    case SwUnlock(t) => m == t
    case SwCheck => m == k
    case SwBlock => m == k
    case SwUnlockSelf => m == k
    case InitClear(_) => m == k
    case InitCreate(_) => m == k
    case InitCheck => m == k
    case InitBlock => m == k
    case InitUnlock => m == k
    case _ => false
  }

  /** The mutexes are held exactly where the code says. */
  ghost predicate Locked(s: State) {
    forall k: nat, m: nat | m < |s| :: Holds(s, k, m) <==> s[m].mutex == Some(k)
  }

  predicate Signals(x: Ctx, t: nat) {
    x.pc == SwLock(t) || x.pc == SwSignal(t)
  }

  predicate Waits(x: Ctx) {
    x.pc.SwBlock? || x.pc.InitBlock? || x.pc.SwWait? || x.pc.InitWait?
  }

  /** No wakeup is lost: a thread about to block, or blocked, whose flag is set, has a signal coming. */
  ghost predicate NoLostWakeup(s: State) {
    forall t: nat | t < |s| && s[t].flag && Waits(s[t]) ::
      exists j: nat :: j < |s| && Signals(s[j], t)
  }

  ghost predicate Inv(s: State) {
    OneToken(s) && (forall i: nat | i < |s| :: Placed(s, i)) && Locked(s) && NoLostWakeup(s)
  }

  lemma StartInv()
    ensures Inv(START)
  {
    assert HeldBy(START, 0);
  }

  /** The context, besides its own, that a thread's next step touches. */
  function Target(pc: Pc): (r: Option<nat>) {
    match pc
    case SwSet(t) => Some(t)
    case SwLock(t) => Some(t)
    case SwSignal(t) => Some(t)
    case SwUnlock(t) => Some(t)
    case InitCreate(c) => Some(c)
    case _ => None
  }

  /** Every other context stays as it is. */
  lemma DoFrame(s: State, i: nat, a: Action, s': State)
    requires Do(s, i, a) == Some(s')
    ensures i < |s| <= |s'|
    ensures forall j: nat | j < |s| && j != i && (a == Step ==> Target(s[i].pc) != Some(j)) :: s'[j] == s[j]
    ensures |s'| > |s| ==> a == Construct && |s'| == |s| + 1 && s'[|s|] == Ctx(Absent, false, None)
    ensures a != Step ==> s'[i] == s[i].(pc := s'[i].pc)
  {
  }

  /** Who has the right to run after an action: it moves when a flag is set, and when a thread is made. */
  function Next(s: State, i: nat, a: Action, k: nat): (r: nat) {
    if a == Step && i < |s| && s[i].pc.SwSet? then s[i].pc.t
    else if a == Step && i < |s| && s[i].pc.InitCreate? then s[i].pc.c
    else k
  }

  lemma DoToken(s: State, i: nat, a: Action, s': State, k: nat)
    requires Inv(s) && Do(s, i, a) == Some(s') && HeldBy(s, k)
    ensures HeldBy(s', Next(s, i, a, k))
  {
    DoFrame(s, i, a, s');
    assert Placed(s, i);
    var k' := Next(s, i, a, k);
    assert Carries(s[i]) ==> i == k;
    assert k' < |s'| && Carries(s'[k']);
    forall j | 0 <= j < |s'| && j != k' ensures !Carries(s'[j]) {
      if j < |s| && j != k { assert !Carries(s[j]); }
    }
  }

  /** The only places that change a thread's place are its own steps, a signal, and being created. */
  lemma DoPlaced(s: State, i: nat, a: Action, s': State)
    requires Inv(s) && Do(s, i, a) == Some(s')
    ensures forall j: nat | j < |s'| :: Placed(s', j)
  {
    hide Do;
    DoFrame(s, i, a, s');
    var k: nat :| HeldBy(s, k);
    forall j: nat | j < |s'| ensures Placed(s', j) {
      if j < |s| {
        assert Placed(s, j) && Placed(s, i);
        if j == i { OwnPlaced(s, i, a, s'); } else { OtherPlaced(s, i, a, s', j, k); }
      }
    }
  }

  lemma OwnPlaced(s: State, i: nat, a: Action, s': State)
    requires Do(s, i, a) == Some(s') && Placed(s, i)
    ensures Placed(s', i)
  {
  }

  lemma OtherPlaced(s: State, i: nat, a: Action, s': State, j: nat, k: nat)
    requires Do(s, i, a) == Some(s') && j < |s| && j != i && Placed(s, i) && Placed(s, j) && HeldBy(s, k)
    ensures Placed(s', j)
  {
    assert Carries(s[i]) ==> i == k;
    assert Carries(s[j]) ==> j == k;
  }

  lemma DoLocked(s: State, i: nat, a: Action, s': State)
    requires Inv(s) && Do(s, i, a) == Some(s')
    ensures Locked(s')
  {
    hide Do;
    DoFrame(s, i, a, s');
    forall k: nat, m: nat | m < |s'| ensures Holds(s', k, m) <==> s'[m].mutex == Some(k) {
      if m < |s| {
        assert Placed(s, i) && (Holds(s, k, m) <==> s[m].mutex == Some(k)) && (Holds(s, i, m) <==> s[m].mutex == Some(i));
        OneLocked(s, i, a, s', k, m);
      } else if k < |s| {
        assert Placed(s, k);
        NoneLocked(s, i, a, s', k);
      }
    }
  }

  lemma OneLocked(s: State, i: nat, a: Action, s': State, k: nat, m: nat)
    requires Do(s, i, a) == Some(s') && Placed(s, i) && m < |s|
    requires Holds(s, k, m) <==> s[m].mutex == Some(k)
    requires Holds(s, i, m) <==> s[m].mutex == Some(i)
    ensures Holds(s', k, m) <==> s'[m].mutex == Some(k)
  {
  }

  lemma NoneLocked(s: State, i: nat, a: Action, s': State, k: nat)
    requires Do(s, i, a) == Some(s') && |s'| > |s| && k < |s| && Placed(s, k)
    ensures !Holds(s', k, |s|)
  {
  }

  /** The race between testing a flag and setting it: the tester still has its mutex until it is
      blocked, so the signal that follows the setting cannot come too early. */
  lemma DoWakes(s: State, i: nat, a: Action, s': State)
    requires Inv(s) && Do(s, i, a) == Some(s')
    ensures NoLostWakeup(s')
  {
    hide Do;
    DoFrame(s, i, a, s');
    assert Placed(s, i);
    forall t: nat | t < |s'| && s'[t].flag && Waits(s'[t]) ensures exists j: nat :: j < |s'| && Signals(s'[j], t) {
      if t < |s| && s[t].flag && Waits(s[t]) {
        var j: nat :| j < |s| && Signals(s[j], t);
        assert Placed(s, j);
        assert (Holds(s, j, t) <==> s[t].mutex == Some(j)) && (Holds(s, t, t) <==> s[t].mutex == Some(t));
        SignalStays(s, i, a, s', t, j);
      } else {
        SignalStarts(s, i, a, s', t);
      }
    }
  }

  lemma SignalStays(s: State, i: nat, a: Action, s': State, t: nat, j: nat)
    requires Do(s, i, a) == Some(s') && t < |s| && j < |s| && j != t && Placed(s, i)
    requires Waits(s[t]) && Waits(s'[t]) && Signals(s[j], t)
    requires Holds(s, j, t) <==> s[t].mutex == Some(j)
    requires Holds(s, t, t) <==> s[t].mutex == Some(t)
    ensures Signals(s'[j], t)
  {
  }

  lemma SignalStarts(s: State, i: nat, a: Action, s': State, t: nat)
    requires Do(s, i, a) == Some(s') && t < |s'| && s'[t].flag && Waits(s'[t])
    requires t < |s| ==> !(s[t].flag && Waits(s[t]))
    ensures i < |s'| && Signals(s'[i], t)
  {
  }

  lemma DoInv(s: State, i: nat, a: Action, s': State)
    requires Inv(s) && Do(s, i, a) == Some(s')
    ensures Inv(s')
  {
    hide Do, Placed, Locked, NoLostWakeup, HeldBy;
    var k: nat :| HeldBy(s, k);
    DoToken(s, i, a, s', k);
    DoPlaced(s, i, a, s');
    DoLocked(s, i, a, s');
    DoWakes(s, i, a, s');
  }

  // ----- every run

  /** Whatever the interleaving, and whatever user code asks for, every run keeps the invariants. */
  lemma {:induction false} RunInv(s: State, trace: seq<(nat, Action)>, s': State)
    requires Inv(s) && Run(s, trace) == Some(s')
    ensures Inv(s')
    decreases |trace|
  {
    hide Do, Inv;
    if trace != [] {
      var n := Do(s, trace[0].0, trace[0].1).value;
      DoInv(s, trace[0].0, trace[0].1, n);
      RunInv(n, trace[1..], s');
    }
  }

  ghost predicate Reachable(s: State) {
    exists trace :: Run(START, trace) == Some(s)
  }

  lemma ReachableInv(s: State)
    requires Reachable(s)
    ensures Inv(s)
  {
    StartInv();
    var trace :| Run(START, trace) == Some(s);
    RunInv(START, trace, s);
  }

  /** At most one context runs user code. */
  lemma MutualExclusion(s: State, i: nat, j: nat)
    requires Reachable(s) && i < |s| && j < |s| && s[i].pc.User? && s[j].pc.User?
    ensures i == j
  {
    ReachableInv(s);
    assert Placed(s, i) && Placed(s, j);
    var k: nat :| HeldBy(s, k);
    assert i == k && j == k;
  }

  /** A blocked thread whose flag is set is about to be signalled: the signaller exists and has not
      signalled yet. */
  lemma WakeupComes(s: State, t: nat)
    requires Reachable(s) && t < |s| && (s[t].pc.SwWait? || s[t].pc.InitWait?) && s[t].flag
    ensures exists j: nat :: j < |s| && j != t && Signals(s[j], t)
  {
    ReachableInv(s);
    assert Waits(s[t]);
    var j: nat :| j < |s| && Signals(s[j], t);
    assert j != t;
  }

  // ----- progress

  /** No thread can take a step, and none is in user code. */
  ghost predicate Stuck(s: State) {
    forall i: nat | i < |s| :: !s[i].pc.User? && Go(s, i) == None
  }

  /** A thread that holds a mutex is never blocked. */
  lemma HolderGoes(s: State, h: nat, m: nat)
    requires Inv(s) && Holds(s, h, m)
    ensures Go(s, h).Some?
  {
    assert Placed(s, h);
  }

  /** The library never deadlocks: when nothing can move, the right to run belongs to a context that
      has no thread to run, because user code switched to one never initialised, or func returned. */
  lemma StuckOnlyWithoutThread(s: State, k: nat)
    requires Reachable(s) && Stuck(s) && HeldBy(s, k)
    ensures s[k].pc.Absent? || s[k].pc.Returned?
  {
    ReachableInv(s);
    hide Inv, NoLostWakeup;
    assert Placed(s, k) && Go(s, k) == None;
    if (s[k].pc.SwWait? || s[k].pc.InitWait?) && s[k].flag {
      WakeupComes(s, k);
      var j: nat :| j < |s| && j != k && Signals(s[j], k);
      assert Go(s, j) == None;
      assert s[k].mutex.Some?;
      MutexFree(s, k);
    } else if s[k].pc.SwLock? {
      MutexFree(s, s[k].pc.t);
    } else if s[k].pc.SwLockSelf? || s[k].pc.InitLock? || s[k].pc.InitRelock? {
      MutexFree(s, k);
    }
  }

  lemma MutexFree(s: State, m: nat)
    requires Reachable(s) && Stuck(s) && m < |s|
    ensures s[m].mutex.None?
  {
    ReachableInv(s);
    if s[m].mutex.Some? {
      var h := s[m].mutex.value;
      assert Holds(s, h, m);
      HolderGoes(s, h, m);
    }
  }

  /** How many more steps a thread may take, counting those of a thread it wakes or creates. */
  function Rank(pc: Pc): (n: nat) {
    match pc
    case SwClear(_) => 12
    case SwSet(_) => 11
    case SwLock(_) => 10
    case SwSignal(_) => 9
    case SwUnlock(_) => 4
    case SwLockSelf => 3
    case SwCheck => 2
    case SwBlock => 1
    case SwUnlockSelf => 1
    case InitLock(_) => 17
    case InitClear(_) => 16
    case InitCreate(_) => 15
    case InitRelock => 3
    case InitCheck => 2
    case InitBlock => 1
    case InitUnlock => 1
    case _ => 0
  }

  function Ranks(s: State): (n: nat) {
    if s == [] then 0 else Rank(s[0].pc) + Ranks(s[1..])
  }

  lemma {:induction false} RanksUpdate(s: State, i: nat, x: Ctx)
    requires i < |s|
    ensures Ranks(s[i := x]) == Ranks(s) - Rank(s[i].pc) + Rank(x.pc)
  {
    if i == 0 {
      assert s[i := x][1..] == s[1..];
    } else {
      RanksUpdate(s[1..], i - 1, x);
      assert s[i := x][1..] == s[1..][i - 1 := x];
    }
  }

  /** Every step inside the library brings the threads closer to rest. */
  lemma StepDescends(s: State, i: nat, s': State)
    requires i < |s| && Go(s, i) == Some(s')
    requires s[i].pc.InitCreate? ==> s[i].pc.c < |s| && s[s[i].pc.c].pc.Absent?
    ensures Ranks(s') < Ranks(s)
  {
    hide Ranks, Rank, Go;
    RankDrops(s, i, s');
    match Target(s[i].pc)
    case Some(t) =>
      RanksUpdate(s, t, s'[t]);
      RanksUpdate(s[t := s'[t]], i, s'[i]);
    case None =>
      RanksUpdate(s, i, s'[i]);
  }

  lemma RankDrops(s: State, i: nat, s': State)
    requires i < |s| && Go(s, i) == Some(s')
    requires s[i].pc.InitCreate? ==> s[i].pc.c < |s| && s[s[i].pc.c].pc.Absent?
    ensures match Target(s[i].pc)
            case Some(t) =>
              && t < |s| && t != i && s' == s[t := s'[t]][i := s'[i]]
              && Rank(s'[i].pc) + Rank(s'[t].pc) < Rank(s[i].pc) + Rank(s[t].pc)
            case None => s' == s[i := s'[i]] && Rank(s'[i].pc) < Rank(s[i].pc)
  {
  }

  /** A run of the library's own steps: user code does nothing meanwhile. */
  predicate LibraryOnly(trace: seq<(nat, Action)>) {
    forall e | e in trace :: e.1 == Step || e.1 == Wake
  }

  /** Whom the right to run is on its way to. */
  function Goal(s: State, k: nat): (g: nat)
    requires k < |s|
  {
    match s[k].pc
    case SwClear(t) => t
    case SwSet(t) => t
    case _ => k
  }

  lemma GoalKept(s: State, i: nat, a: Action, s': State, k: nat)
    requires Inv(s) && Do(s, i, a) == Some(s') && (a == Step || a == Wake) && HeldBy(s, k)
    ensures HeldBy(s', Next(s, i, a, k)) && Goal(s', Next(s, i, a, k)) == Goal(s, k)
  {
    DoToken(s, i, a, s', k);
    DoFrame(s, i, a, s');
    assert Placed(s, i);
    assert Carries(s[i]) ==> i == k;
  }

  lemma {:induction false} GoalReached(s: State, trace: seq<(nat, Action)>, s': State, k: nat, j: nat)
    requires Inv(s) && HeldBy(s, k) && LibraryOnly(trace) && Run(s, trace) == Some(s')
    requires j < |s'| && s'[j].pc.User?
    ensures j == Goal(s, k)
    decreases |trace|
  {
    hide Do, Goal, Next, HeldBy;
    if trace == [] {
      RunsUser(s, k, j);
    } else {
      var (i, a) := trace[0];
      var n := Do(s, i, a).value;
      assert trace[0] in trace;
      DoInv(s, i, a, n);
      GoalKept(s, i, a, n, k);
      assert forall e | e in trace[1..] :: e in trace;
      GoalReached(n, trace[1..], s', Next(s, i, a, k), j);
    }
  }

  lemma RunsUser(s: State, k: nat, j: nat)
    requires Inv(s) && HeldBy(s, k) && j < |s| && s[j].pc.User?
    ensures k < |s| && j == Goal(s, k)
  {
    assert Placed(s, j);
  }

  /** After switch_to(t) the next context to run user code is t, and after init it is the creator again,
      whatever the interleaving. */
  lemma NextToRun(s: State, i: nat, a: Action, n: State, trace: seq<(nat, Action)>, s': State, j: nat)
    requires Reachable(s) && Do(s, i, a) == Some(n) && (a.Switch? || a.Init?)
    requires LibraryOnly(trace) && Run(n, trace) == Some(s') && j < |s'| && s'[j].pc.User?
    ensures j == if a.Switch? then a.t else i
  {
    ReachableInv(s);
    assert Placed(s, i);
    var k: nat :| HeldBy(s, k);
    assert k == i;
    DoToken(s, i, a, n, k);
    DoInv(s, i, a, n);
    GoalReached(n, trace, s', k, j);
  }

  predicate StepsOnly(trace: seq<(nat, Action)>) {
    forall e | e in trace :: e.1 == Step
  }

  /** The library's own steps cannot go on for ever: a handoff takes at most Ranks(s) of them. */
  lemma {:induction false} HandoffEnds(s: State, trace: seq<(nat, Action)>, s': State)
    requires Inv(s) && StepsOnly(trace) && Run(s, trace) == Some(s')
    ensures |trace| <= Ranks(s)
    decreases |trace|
  {
    hide Go, Inv, Ranks;
    if trace != [] {
      var (i, a) := trace[0];
      assert trace[0] in trace && forall e | e in trace[1..] :: e in trace;
      var n := Do(s, i, a).value;
      CreatesAbsent(s, i);
      StepDescends(s, i, n);
      DoInv(s, i, a, n);
      HandoffEnds(n, trace[1..], s');
    }
  }

  lemma CreatesAbsent(s: State, i: nat)
    requires Inv(s) && i < |s|
    ensures s[i].pc.InitCreate? ==> s[i].pc.c < |s| && s[s[i].pc.c].pc.Absent?
  {
    assert Placed(s, i);
  }

  lemma {:induction false} RunAppend(s: State, a: seq<(nat, Action)>, b: seq<(nat, Action)>)
    requires Run(s, a).Some?
    ensures Run(s, a + b) == Run(Run(s, a).value, b)
    decreases |a|
  {
    hide Do;
    if a == [] {
      assert a + b == b;
    } else {
      assert (a + b)[1..] == a[1..] + b;
      RunAppend(Do(s, a[0].0, a[0].1).value, a[1..], b);
    }
  }

  lemma ReachableOn(s: State, trace: seq<(nat, Action)>, s': State)
    requires Reachable(s) && Run(s, trace) == Some(s')
    ensures Reachable(s')
  {
    var tr :| Run(START, tr) == Some(s);
    RunAppend(START, tr, trace);
  }

  /** A thread never ends, nor is unmade, inside the library. */
  lemma {:induction false} ThreadStays(s: State, trace: seq<(nat, Action)>, s': State, t: nat)
    requires StepsOnly(trace) && Run(s, trace) == Some(s')
    requires t < |s| && !s[t].pc.Absent? && !s[t].pc.Returned?
    ensures t < |s'| && !s'[t].pc.Absent? && !s'[t].pc.Returned?
    decreases |trace|
  {
    if trace != [] {
      assert trace[0] in trace && forall e | e in trace[1..] :: e in trace;
      ThreadStays(Do(s, trace[0].0, trace[0].1).value, trace[1..], s', t);
    }
  }

  lemma {:induction false} GoalAlong(s: State, trace: seq<(nat, Action)>, s': State, k: nat) returns (k': nat)
    requires Inv(s) && HeldBy(s, k) && StepsOnly(trace) && Run(s, trace) == Some(s')
    ensures HeldBy(s', k') && Goal(s', k') == Goal(s, k)
    decreases |trace|
  {
    hide Do, Goal, Next, HeldBy;
    k' := k;
    if trace != [] {
      var (i, a) := trace[0];
      var n := Do(s, i, a).value;
      assert trace[0] in trace && forall e | e in trace[1..] :: e in trace;
      DoInv(s, i, a, n);
      GoalKept(s, i, a, n, k);
      k' := GoalAlong(n, trace[1..], s', Next(s, i, a, k));
    }
  }

  /** A switch_to a context that has a thread always arrives: however the steps interleave, and even
      without spurious wakeups, once nothing inside the library can move that context is in user code. */
  lemma SwitchArrives(s: State, i: nat, t: nat, n: State, trace: seq<(nat, Action)>, s': State)
    requires Reachable(s) && Do(s, i, Switch(t)) == Some(n) && !s[t].pc.Absent? && !s[t].pc.Returned?
    requires StepsOnly(trace) && Run(n, trace) == Some(s')
    requires forall j: nat | j < |s'| :: Go(s', j) == None
    ensures t < |s'| && s'[t].pc.User?
  {
    ReachableInv(s);
    assert Placed(s, i);
    var k: nat :| HeldBy(s, k);
    assert k == i;
    DoToken(s, i, Switch(t), n, k);
    DoInv(s, i, Switch(t), n);
    assert Run(n, []) == Some(n);
    ReachableOn(s, [(i, Switch(t))], n) by { assert [(i, Switch(t))][1..] == []; }
    ReachableOn(n, trace, s');
    ThreadStays(n, trace, s', t);
    var k' := GoalAlong(n, trace, s', k);
    if Stuck(s') {
      StuckOnlyWithoutThread(s', k');
      assert false;
    } else {
      var j: nat :| j < |s'| && s'[j].pc.User?;
      ReachableInv(s');
      RunsUser(s', k', j);
    }
  }

  // ----- the protocol goes on

  /** What user code can always do: construct a context, call init on one that has no thread yet, call switch_to on any other,
      and return; and what a wakeup without a signal does. */
  lemma UserActions(s: State, i: nat, t: nat)
    requires i < |s|
    ensures s[i].pc.User? ==> Do(s, i, Construct) == Some(s + [Ctx(Absent, false, None)])
    ensures s[i].pc.User? && t < |s| && s[t].pc.Absent? && !s[t].flag ==> Do(s, i, Init(t)) == Some(s[i := s[i].(pc := InitLock(t))])
    ensures s[i].pc.User? && t < |s| && t != i ==> Do(s, i, Switch(t)) == Some(s[i := s[i].(pc := SwClear(t))])
    ensures s[i].pc.User? ==> Do(s, i, Return) == Some(s[i := s[i].(pc := Returned)])
    ensures s[i].pc == SwWait ==> Do(s, i, Wake) == Some(s[i := s[i].(pc := SwLockSelf)])
    ensures s[i].pc == InitWait ==> Do(s, i, Wake) == Some(s[i := s[i].(pc := InitRelock)])
  {
  }

  lemma ReachableStep(s: State, i: nat, a: Action, s': State)
    requires Reachable(s) && Do(s, i, a) == Some(s')
    ensures Reachable(s')
  {
    assert [(i, a)][1..] == [];
    assert Run(s', []) == Some(s');
    ReachableOn(s, [(i, a)], s');
  }

  const RUNNING := Ctx(User, true, None)
  const WAITING := Ctx(SwWait, false, None)

  /** Contexts `i` and `c` brought up to date one after the other, in either order. */
  lemma Pair(s: State, i: nat, c: nat, x: Ctx, y: Ctx, x': Ctx, y': Ctx)
    requires i < |s| && c < |s| && i != c
    ensures var t := s[i := x][c := y];
            && t[i] == x && t[c] == y && t[i := x'][c := y'] == t[c := y'][i := x'] == s[i := x'][c := y']
            && (x == x' ==> t[c := y'] == s[i := x'][c := y']) && (y == y' ==> t[i := x'] == s[i := x'][c := y'])
  {
  }

  /** One step that takes two contexts on, the others being what they are in `s`. */
  lemma PairStep(s: State, i: nat, c: nat, x: Ctx, y: Ctx, who: nat, a: Action, x': Ctx, y': Ctx)
    requires i < |s| && c < |s| && i != c && Reachable(s[i := x][c := y])
    requires Do(s[i := x][c := y], who, a) == Some(s[i := x'][c := y'])
    ensures Reachable(s[i := x'][c := y'])
  {
    hide Do, Reachable;
    ReachableStep(s[i := x][c := y], who, a, s[i := x'][c := y']);
  }

  /** From the call of init to the start of the new thread. */
  lemma InitStarts(s: State, i: nat, c: nat)
    requires i < |s| && c < |s| && i != c && Reachable(s[i := RUNNING][c := Ctx(Absent, false, None)])
    ensures Reachable(s[i := Ctx(InitCheck, false, Some(i))][c := Ctx(SwClear(i), false, None)])
  {
    hide Reachable;
    var m: Option<nat>, n: Option<nat> := Some(i), Some(c);
    Pair(s, i, c, RUNNING, Ctx(Absent, false, None), Ctx(InitLock(c), true, None), Ctx(Absent, false, None));
    PairStep(s, i, c, RUNNING, Ctx(Absent, false, None), i, Init(c), Ctx(InitLock(c), true, None), Ctx(Absent, false, None));
    Pair(s, i, c, Ctx(InitLock(c), true, None), Ctx(Absent, false, None), Ctx(InitClear(c), true, m), Ctx(Absent, false, None));
    PairStep(s, i, c, Ctx(InitLock(c), true, None), Ctx(Absent, false, None), i, Step, Ctx(InitClear(c), true, m), Ctx(Absent, false, None));
    Pair(s, i, c, Ctx(InitClear(c), true, m), Ctx(Absent, false, None), Ctx(InitCreate(c), false, m), Ctx(Absent, false, None));
    PairStep(s, i, c, Ctx(InitClear(c), true, m), Ctx(Absent, false, None), i, Step, Ctx(InitCreate(c), false, m), Ctx(Absent, false, None));
    Pair(s, i, c, Ctx(InitCreate(c), false, m), Ctx(Absent, false, None), Ctx(InitCheck, false, m), Ctx(SwClear(i), false, None));
    PairStep(s, i, c, Ctx(InitCreate(c), false, m), Ctx(Absent, false, None), i, Step, Ctx(InitCheck, false, m), Ctx(SwClear(i), false, None));
  }

  /** The new thread sets the flag of its creator, who runs again. */
  lemma InitWakes(s: State, i: nat, c: nat)
    requires i < |s| && c < |s| && i != c && Reachable(s[i := Ctx(InitCheck, false, Some(i))][c := Ctx(SwClear(i), false, None)])
    ensures Reachable(s[i := RUNNING][c := Ctx(SwLock(i), false, None)])
  {
    hide Reachable;
    var m: Option<nat>, n: Option<nat> := Some(i), Some(c);
    Pair(s, i, c, Ctx(InitCheck, false, m), Ctx(SwClear(i), false, None), Ctx(InitCheck, false, m), Ctx(SwSet(i), false, None));
    PairStep(s, i, c, Ctx(InitCheck, false, m), Ctx(SwClear(i), false, None), c, Step, Ctx(InitCheck, false, m), Ctx(SwSet(i), false, None));
    Pair(s, i, c, Ctx(InitCheck, false, m), Ctx(SwSet(i), false, None), Ctx(InitCheck, true, m), Ctx(SwLock(i), false, None));
    PairStep(s, i, c, Ctx(InitCheck, false, m), Ctx(SwSet(i), false, None), c, Step, Ctx(InitCheck, true, m), Ctx(SwLock(i), false, None));
    Pair(s, i, c, Ctx(InitCheck, true, m), Ctx(SwLock(i), false, None), Ctx(InitUnlock, true, m), Ctx(SwLock(i), false, None));
    PairStep(s, i, c, Ctx(InitCheck, true, m), Ctx(SwLock(i), false, None), i, Step, Ctx(InitUnlock, true, m), Ctx(SwLock(i), false, None));
    Pair(s, i, c, Ctx(InitUnlock, true, m), Ctx(SwLock(i), false, None), RUNNING, Ctx(SwLock(i), false, None));
    PairStep(s, i, c, Ctx(InitUnlock, true, m), Ctx(SwLock(i), false, None), i, Step, RUNNING, Ctx(SwLock(i), false, None));
  }

  /** The new thread signals its creator and lets go of the creator's mutex. */
  lemma InitSignals(s: State, i: nat, c: nat)
    requires i < |s| && c < |s| && i != c && Reachable(s[i := RUNNING][c := Ctx(SwLock(i), false, None)])
    ensures Reachable(s[i := RUNNING][c := Ctx(SwLockSelf, false, None)])
  {
    hide Reachable;
    var m: Option<nat>, n: Option<nat> := Some(i), Some(c);
    Pair(s, i, c, RUNNING, Ctx(SwLock(i), false, None), Ctx(User, true, n), Ctx(SwSignal(i), false, None));
    PairStep(s, i, c, RUNNING, Ctx(SwLock(i), false, None), c, Step, Ctx(User, true, n), Ctx(SwSignal(i), false, None));
    Pair(s, i, c, Ctx(User, true, n), Ctx(SwSignal(i), false, None), Ctx(User, true, n), Ctx(SwUnlock(i), false, None));
    PairStep(s, i, c, Ctx(User, true, n), Ctx(SwSignal(i), false, None), c, Step, Ctx(User, true, n), Ctx(SwUnlock(i), false, None));
    Pair(s, i, c, Ctx(User, true, n), Ctx(SwUnlock(i), false, None), RUNNING, Ctx(SwLockSelf, false, None));
    PairStep(s, i, c, Ctx(User, true, n), Ctx(SwUnlock(i), false, None), c, Step, RUNNING, Ctx(SwLockSelf, false, None));
  }

  /** The new thread blocks on its own flag. */
  lemma InitWaits(s: State, i: nat, c: nat)
    requires i < |s| && c < |s| && i != c && Reachable(s[i := RUNNING][c := Ctx(SwLockSelf, false, None)])
    ensures Reachable(s[i := RUNNING][c := WAITING])
  {
    hide Reachable;
    var m: Option<nat>, n: Option<nat> := Some(i), Some(c);
    Pair(s, i, c, RUNNING, Ctx(SwLockSelf, false, None), RUNNING, Ctx(SwCheck, false, n));
    PairStep(s, i, c, RUNNING, Ctx(SwLockSelf, false, None), c, Step, RUNNING, Ctx(SwCheck, false, n));
    Pair(s, i, c, RUNNING, Ctx(SwCheck, false, n), RUNNING, Ctx(SwBlock, false, n));
    PairStep(s, i, c, RUNNING, Ctx(SwCheck, false, n), c, Step, RUNNING, Ctx(SwBlock, false, n));
    Pair(s, i, c, RUNNING, Ctx(SwBlock, false, n), RUNNING, WAITING);
    PairStep(s, i, c, RUNNING, Ctx(SwBlock, false, n), c, Step, RUNNING, WAITING);
  }

  /** A run of init: the creator runs again, and the new context waits with a thread of its own. */
  lemma InitRuns(s: State, i: nat, c: nat)
    requires i < |s| && c < |s| && i != c && Reachable(s[i := RUNNING][c := Ctx(Absent, false, None)])
    ensures Reachable(s[i := RUNNING][c := WAITING])
  {
    hide Reachable;
    InitStarts(s, i, c);
    InitWakes(s, i, c);
    InitSignals(s, i, c);
    InitWaits(s, i, c);
  }

  /** The switching context clears its flag and sets the other's. */
  lemma SwitchSets(s: State, i: nat, c: nat)
    requires i < |s| && c < |s| && i != c && Reachable(s[i := RUNNING][c := WAITING])
    ensures Reachable(s[i := Ctx(SwLock(c), false, None)][c := Ctx(SwWait, true, None)])
  {
    hide Reachable;
    var m: Option<nat>, n: Option<nat> := Some(i), Some(c);
    Pair(s, i, c, RUNNING, WAITING, Ctx(SwClear(c), true, None), WAITING);
    PairStep(s, i, c, RUNNING, WAITING, i, Switch(c), Ctx(SwClear(c), true, None), WAITING);
    Pair(s, i, c, Ctx(SwClear(c), true, None), WAITING, Ctx(SwSet(c), false, None), WAITING);
    PairStep(s, i, c, Ctx(SwClear(c), true, None), WAITING, i, Step, Ctx(SwSet(c), false, None), WAITING);
    Pair(s, i, c, Ctx(SwSet(c), false, None), WAITING, Ctx(SwLock(c), false, None), Ctx(SwWait, true, None));
    PairStep(s, i, c, Ctx(SwSet(c), false, None), WAITING, i, Step, Ctx(SwLock(c), false, None), Ctx(SwWait, true, None));
  }

  /** It signals the other context and lets go of that one's mutex. */
  lemma SwitchSignals(s: State, i: nat, c: nat)
    requires i < |s| && c < |s| && i != c && Reachable(s[i := Ctx(SwLock(c), false, None)][c := Ctx(SwWait, true, None)])
    ensures Reachable(s[i := Ctx(SwLockSelf, false, None)][c := Ctx(SwLockSelf, true, None)])
  {
    hide Reachable;
    var m: Option<nat>, n: Option<nat> := Some(i), Some(c);
    Pair(s, i, c, Ctx(SwLock(c), false, None), Ctx(SwWait, true, None), Ctx(SwSignal(c), false, None), Ctx(SwWait, true, m));
    PairStep(s, i, c, Ctx(SwLock(c), false, None), Ctx(SwWait, true, None), i, Step, Ctx(SwSignal(c), false, None), Ctx(SwWait, true, m));
    Pair(s, i, c, Ctx(SwSignal(c), false, None), Ctx(SwWait, true, m), Ctx(SwUnlock(c), false, None), Ctx(SwLockSelf, true, m));
    PairStep(s, i, c, Ctx(SwSignal(c), false, None), Ctx(SwWait, true, m), i, Step, Ctx(SwUnlock(c), false, None), Ctx(SwLockSelf, true, m));
    Pair(s, i, c, Ctx(SwUnlock(c), false, None), Ctx(SwLockSelf, true, m), Ctx(SwLockSelf, false, None), Ctx(SwLockSelf, true, None));
    PairStep(s, i, c, Ctx(SwUnlock(c), false, None), Ctx(SwLockSelf, true, m), i, Step, Ctx(SwLockSelf, false, None), Ctx(SwLockSelf, true, None));
  }

  /** The other context finds its flag set and runs. */
  lemma SwitchResumes(s: State, i: nat, c: nat)
    requires i < |s| && c < |s| && i != c && Reachable(s[i := Ctx(SwLockSelf, false, None)][c := Ctx(SwLockSelf, true, None)])
    ensures Reachable(s[i := Ctx(SwLockSelf, false, None)][c := RUNNING])
  {
    hide Reachable;
    var m: Option<nat>, n: Option<nat> := Some(i), Some(c);
    Pair(s, i, c, Ctx(SwLockSelf, false, None), Ctx(SwLockSelf, true, None), Ctx(SwLockSelf, false, None), Ctx(SwCheck, true, n));
    PairStep(s, i, c, Ctx(SwLockSelf, false, None), Ctx(SwLockSelf, true, None), c, Step, Ctx(SwLockSelf, false, None), Ctx(SwCheck, true, n));
    Pair(s, i, c, Ctx(SwLockSelf, false, None), Ctx(SwCheck, true, n), Ctx(SwLockSelf, false, None), Ctx(SwUnlockSelf, true, n));
    PairStep(s, i, c, Ctx(SwLockSelf, false, None), Ctx(SwCheck, true, n), c, Step, Ctx(SwLockSelf, false, None), Ctx(SwUnlockSelf, true, n));
    Pair(s, i, c, Ctx(SwLockSelf, false, None), Ctx(SwUnlockSelf, true, n), Ctx(SwLockSelf, false, None), RUNNING);
    PairStep(s, i, c, Ctx(SwLockSelf, false, None), Ctx(SwUnlockSelf, true, n), c, Step, Ctx(SwLockSelf, false, None), RUNNING);
  }

  /** The switching context blocks on its own flag. */
  lemma SwitchWaits(s: State, i: nat, c: nat)
    requires i < |s| && c < |s| && i != c && Reachable(s[i := Ctx(SwLockSelf, false, None)][c := RUNNING])
    ensures Reachable(s[i := WAITING][c := RUNNING])
  {
    hide Reachable;
    var m: Option<nat>, n: Option<nat> := Some(i), Some(c);
    Pair(s, i, c, Ctx(SwLockSelf, false, None), RUNNING, Ctx(SwCheck, false, m), RUNNING);
    PairStep(s, i, c, Ctx(SwLockSelf, false, None), RUNNING, i, Step, Ctx(SwCheck, false, m), RUNNING);
    Pair(s, i, c, Ctx(SwCheck, false, m), RUNNING, Ctx(SwBlock, false, m), RUNNING);
    PairStep(s, i, c, Ctx(SwCheck, false, m), RUNNING, i, Step, Ctx(SwBlock, false, m), RUNNING);
    Pair(s, i, c, Ctx(SwBlock, false, m), RUNNING, WAITING, RUNNING);
    PairStep(s, i, c, Ctx(SwBlock, false, m), RUNNING, i, Step, WAITING, RUNNING);
  }

  /** A run of switch_to: the context switched to runs, and the other waits. */
  lemma SwitchRuns(s: State, i: nat, c: nat)
    requires i < |s| && c < |s| && i != c && Reachable(s[i := RUNNING][c := WAITING])
    ensures Reachable(s[i := WAITING][c := RUNNING])
  {
    hide Reachable;
    SwitchSets(s, i, c);
    SwitchSignals(s, i, c);
    SwitchResumes(s, i, c);
    SwitchWaits(s, i, c);
  }

  /** One context that runs and others that wait. */
  function Crowd(n: nat, t: nat): (s: State)
    requires t < n
    ensures |s| == n && forall k | 0 <= k < n :: s[k] == if k == t then RUNNING else WAITING
  {
    seq(n, k requires 0 <= k < n => if k == t then RUNNING else WAITING)
  }

  /** Any number of contexts can have threads, and each of them can be the one that runs. */
  lemma {:induction false} CrowdReachable(n: nat, t: nat)
    requires t < n
    ensures Reachable(Crowd(n, t))
    decreases n, t
  {
    hide Reachable;
    if n == 1 {
      OneAlone();
    } else if t == 0 {
      CrowdReachable(n - 1, 0);
      var s, a := Crowd(n - 1, 0), Ctx(Absent, false, None);
      ReachableStep(s, 0, Construct, s + [a]);
      assert s + [a] == (s + [a])[0 := RUNNING][n - 1 := a];
      InitRuns(s + [a], 0, n - 1);
      assert (s + [a])[0 := RUNNING][n - 1 := WAITING] == Crowd(n, 0);
    } else {
      CrowdReachable(n, 0);
      assert Crowd(n, 0) == Crowd(n, 0)[0 := RUNNING][t := WAITING];
      SwitchRuns(Crowd(n, 0), 0, t);
      assert Crowd(n, 0)[0 := WAITING][t := RUNNING] == Crowd(n, t);
    }
  }

  lemma OneAlone()
    ensures Reachable(Crowd(1, 0))
  {
    assert Run(START, []) == Some(START);
    assert Crowd(1, 0) == START;
  }
}
