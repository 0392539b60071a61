/** The cross-process project lock as a transition system, every file-system call of every contender a step. */
module ProjectLock {
  import opened Wrappers

  /** Empty also stands for any payload that does not parse. */
  datatype Payload = Empty | Pid(pid: int)

  /** `creator` identifies the open file behind the path, so that a late write reaches the right one. */
  datatype LockFile = LockFile(payload: Payload, aged: bool, creator: Option<nat>)

  datatype Phase =
    | Ready(attempt: nat)  // about to open with O_EXCL
    | Created              // file made, payload not yet written
    | Blocked              // first attempt found the file in place
    | Statted              // not too old; about to read it
    | Condemned            // judged stale; about to remove it
    | Holding
    | Released
    | Failed
    | Dead

  /** `running` are the PIDs of unrelated live processes. */
  datatype State = State(file: Option<LockFile>, phase: map<nat, Phase>, pid: map<nat, int>, running: set<int>)

  datatype Op = Open | OpenError | Write | WriteError | Stat | Read | Reclaim | Release | Crash

  /** A contender's step, the file crossing the age limit, or unrelated processes coming and going. */
  datatype Action = Step(p: nat, op: Op) | Age | Running(pids: set<int>)

  /** What the scheduler is assumed to respect. */
  datatype Policy = Policy(createAtomic: bool, reclaimAtomic: bool, agesOnlyAbandoned: bool)

  ghost predicate WellFormed(s: State) {
    && s.pid.Keys == s.phase.Keys
    && forall p | p in s.pid :: s.pid[p] > 0
  }

  ghost predicate At(s: State, p: nat, ph: Phase) {
    p in s.phase && s.phase[p] == ph
  }

  ghost predicate ProcessExists(s: State, pid: int) {
    pid > 0 && (pid in s.running || exists p :: p in s.phase && p in s.pid && s.phase[p] != Dead && s.pid[p] == pid)
  }

  /** Phases another process must not step into when the window is atomic. */
  predicate InWindow(policy: Policy, ph: Phase) {
    (policy.createAtomic && ph.Created?) || (policy.reclaimAtomic && (ph.Statted? || ph.Condemned?))
  }

  ghost predicate OthersOutsideWindows(policy: Policy, s: State, p: nat) {
    forall q | q in s.phase && q != p :: !InWindow(policy, s.phase[q])
  }

  ghost predicate Owned(s: State) {
    s.file.Some? && s.file.value.creator.Some?
    && (At(s, s.file.value.creator.value, Holding) || At(s, s.file.value.creator.value, Created))
  }

  predicate Fits(op: Op, ph: Phase) {
    match op
    case Open | OpenError => ph.Ready?
    case Write | WriteError => ph.Created?
    case Stat => ph.Blocked?
    case Read => ph.Statted?
    case Reclaim => ph.Condemned?
    case Release => ph.Holding?
    case Crash => !ph.Dead?
  }

  ghost predicate Enabled(policy: Policy, s: State, a: Action) {
    match a
    case Age => s.file.Some? && (policy.agesOnlyAbandoned ==> !Owned(s))
    case Running(_) => true
    case Step(p, op) => p in s.phase && Fits(op, s.phase[p]) && (op.Crash? || OthersOutsideWindows(policy, s, p))
  }

  /** The process named in the lockfile is alive. */
  ghost predicate HolderAlive(s: State) {
    s.file.Some? && s.file.value.payload.Pid? && ProcessExists(s, s.file.value.payload.pid)
  }

  /** One step of p, in terms of the file and its own phase. */
  function Effect(file: Option<LockFile>, ph: Phase, p: nat, pid: int, holderAlive: bool, op: Op)
    : (Option<LockFile>, Phase)
  {
    match op
    case Open =>
      if file.None? then (Some(LockFile(Empty, false, Some(p))), Created)
      else if ph == Ready(0) then (file, Blocked)
      else (file, Failed)
    case OpenError => (file, Failed)
    case Write =>
      if file.Some? && file.value.creator == Some(p) then (Some(file.value.(payload := Pid(pid))), Holding)
      else (file, Holding)
    case WriteError => (None, Failed)
    case Stat => if file.None? then (file, Failed) else if file.value.aged then (file, Condemned) else (file, Statted)
    case Read => if holderAlive then (file, Failed) else (file, Condemned)
    case Reclaim => (None, Ready(1))
    case Release => (None, Released)
    case Crash => (file, Dead)
  }

  ghost function Apply(s: State, a: Action): State
    requires WellFormed(s) && (a.Step? ==> a.p in s.phase)
  {
    match a
    case Age => if s.file.Some? then s.(file := Some(s.file.value.(aged := true))) else s
    case Running(pids) => s.(running := pids)
    case Step(p, op) =>
      var (file, ph) := Effect(s.file, s.phase[p], p, s.pid[p], HolderAlive(s), op);
      s.(file := file, phase := s.phase[p := ph])
  }

  ghost predicate Next(policy: Policy, s: State, a: Action, s': State) {
    WellFormed(s) && Enabled(policy, s, a) && s' == Apply(s, a)
  }

  /** Any contenders, any file left behind. */
  ghost predicate Initial(s: State) {
    && WellFormed(s)
    && (forall p | p in s.phase :: s.phase[p] == Ready(0))
    && (s.file.Some? ==> s.file.value.creator.None?)
  }

  /** A run: its states, and the action taken between each two. */
  ghost predicate IsRun(policy: Policy, states: seq<State>, actions: seq<Action>) {
    && |states| == |actions| + 1 && Initial(states[0])
    && forall i | 0 <= i < |actions| :: Next(policy, states[i], actions[i], states[i + 1])
  }

  /** At most one live process is between a successful acquire and its release. */
  ghost predicate MutualExclusion(s: State) {
    forall p, q | At(s, p, Holding) && At(s, q, Holding) :: p == q
  }

  ghost predicate Reachable(policy: Policy, s: State) {
    exists states, actions :: IsRun(policy, states, actions) && states[|states| - 1] == s
  }

  ghost predicate Safe(policy: Policy) {
    forall s | Reachable(policy, s) :: MutualExclusion(s)
  }

  const ATOMIC := Policy(true, true, true)

  ghost predicate Inv(s: State) {
    && WellFormed(s)
    && (forall p | At(s, p, Holding) :: s.file == Some(LockFile(Pid(s.pid[p]), false, Some(p))))
    && (forall p | At(s, p, Created) :: s.file == Some(LockFile(Empty, false, Some(p))))
    && (forall p, q | At(s, p, Condemned) :: !At(s, q, Holding) && !At(s, q, Created))
    && (forall p, q | p in s.phase && q in s.phase && InWindow(ATOMIC, s.phase[p]) && InWindow(ATOMIC, s.phase[q]) ::
       p == q)
  }

  lemma InvKept(s: State, a: Action, s': State)
    requires Inv(s) && Next(ATOMIC, s, a, s')
    ensures Inv(s')
  {
    if !a.Step? {
      assert s'.phase == s.phase && forall q, ph :: At(s', q, ph) <==> At(s, q, ph);
    }
    if a.Age? {
      assert forall q :: !At(s, q, Holding) && !At(s, q, Created);
    } else if a.Step? {
      hide Inv, OthersOutsideWindows, ProcessExists;
      match a.op
      case Open => OpenKept(s, a.p, s');
      case Write => WriteKept(s, a.p, s');
      case Reclaim => RemoveKept(s, a.p, a.op, s');
      case Release => RemoveKept(s, a.p, a.op, s');
      case WriteError => RemoveKept(s, a.p, a.op, s');
      case Read => ReadKept(s, a.p, s');
      case Stat => StatKept(s, a.p, s');
      case OpenError => LeaveKept(s, a.p, a.op, s');
      case Crash => LeaveKept(s, a.p, a.op, s');
    }
  }

  lemma OpenKept(s: State, p: nat, s': State)
    requires Inv(s) && Next(ATOMIC, s, Step(p, Open), s')
    ensures Inv(s')
  {
    hide ProcessExists;
    if s.file.None? {
      assert forall q | q in s.phase && q != p :: !InWindow(ATOMIC, s.phase[q]);
      assert forall q | q in s'.phase && q != p :: s'.phase[q] == s.phase[q];
      assert !exists q :: At(s', q, Holding);
    }
  }

  lemma WriteKept(s: State, p: nat, s': State)
    requires Inv(s) && Next(ATOMIC, s, Step(p, Write), s')
    ensures Inv(s')
  {
    assert At(s, p, Created);
    assert forall q | q in s.phase && q != p :: !InWindow(ATOMIC, s.phase[q]);
  }

  lemma RemoveKept(s: State, p: nat, op: Op, s': State)
    requires op in {Reclaim, Release, WriteError}
    requires Inv(s) && Next(ATOMIC, s, Step(p, op), s')
    ensures Inv(s')
  {
    assert At(s, p, s.phase[p]);
    forall q | q != p ensures !At(s', q, Holding) && !At(s', q, Created) {
      assert At(s', q, Holding) ==> At(s, q, Holding);
    }
  }

  /** A file that survives the reading is not a live holder's. */
  lemma ReadKept(s: State, p: nat, s': State)
    requires Inv(s) && Next(ATOMIC, s, Step(p, Read), s')
    ensures Inv(s')
  {
    forall q | At(s, q, Holding) ensures ProcessExists(s, s.pid[q]) { }
    if s'.phase[p] == Condemned {
      assert forall q | q in s.phase && q != p :: !InWindow(ATOMIC, s.phase[q]);
      assert forall q :: !At(s, q, Holding) && !At(s, q, Created);
    }
    hide ProcessExists;
    assert forall q | q in s.phase && q != p :: s'.phase[q] == s.phase[q];
  }

  lemma StatKept(s: State, p: nat, s': State)
    requires Inv(s) && Next(ATOMIC, s, Step(p, Stat), s')
    ensures Inv(s')
  {
    hide ProcessExists;
    if s'.phase[p] == Condemned {
      assert forall q :: !At(s, q, Holding) && !At(s, q, Created);
    }
    assert forall q | q in s.phase && q != p :: s'.phase[q] == s.phase[q];
  }

  lemma LeaveKept(s: State, p: nat, op: Op, s': State)
    requires op in {OpenError, Crash}
    requires Inv(s) && Next(ATOMIC, s, Step(p, op), s')
    ensures Inv(s')
  {
    hide ProcessExists;
    forall q, ph | q != p ensures At(s', q, ph) <==> At(s, q, ph) { }
    assert !InWindow(ATOMIC, s'.phase[p]);
    assert forall q | q in s.phase && q != p :: s'.phase[q] == s.phase[q];
  }

  lemma {:induction false} InvAlways(states: seq<State>, actions: seq<Action>, n: nat)
    requires IsRun(ATOMIC, states, actions) && n < |states|
    ensures Inv(states[n])
  {
    if n > 0 {
      InvAlways(states, actions, n - 1);
      InvKept(states[n - 1], actions[n - 1], states[n - 1 + 1]);
    }
  }

  lemma AtomicIsSafe()
    ensures Safe(ATOMIC)
  {
    forall s | Reachable(ATOMIC, s) ensures MutualExclusion(s) {
      var states, actions :| IsRun(ATOMIC, states, actions) && states[|states| - 1] == s;
      InvAlways(states, actions, |states| - 1);
    }
  }

  lemma Start(policy: Policy, s: State)
    requires Initial(s)
    ensures Reachable(policy, s)
  {
    assert IsRun(policy, [s], []);
  }

  lemma Do(policy: Policy, s: State, a: Action) returns (s': State)
    requires Reachable(policy, s) && WellFormed(s) && Enabled(policy, s, a)
    ensures s' == Apply(s, a) && Reachable(policy, s')
  {
    s' := Apply(s, a);
    var states, actions :| IsRun(policy, states, actions) && states[|states| - 1] == s;
    var states', actions' := states + [s'], actions + [a];
    forall i | 0 <= i < |actions'| ensures Next(policy, states'[i], actions'[i], states'[i + 1]) {
      if i < |actions| { assert Next(policy, states[i], actions[i], states[i + 1]); }
    }
    assert IsRun(policy, states', actions') && states'[|states'| - 1] == s';
  }

  /** Two contenders with PIDs 7 and 8, nothing else running. */
  function Duo(file: Option<LockFile>, first: Phase, second: Phase): State {
    State(file, map[0 := first, 1 := second], map[0 := 7, 1 := 8], {})
  }

  function Fresh(payload: Payload, creator: nat): Option<LockFile> {
    Some(LockFile(payload, false, Some(creator)))
  }

  /** One step of contender 0 or 1, the other being outside every atomic window. */
  lemma DuoStep(policy: Policy, file: Option<LockFile>, ph: Phase, other: Phase, p: nat, op: Op,
                file': Option<LockFile>, ph': Phase)
    requires p < 2 && Reachable(policy, if p == 0 then Duo(file, ph, other) else Duo(file, other, ph))
    requires Fits(op, ph) && !InWindow(policy, other)
    requires op == Read ==> file.Some? && file.value.payload in {Empty, Pid(9)}
    requires (file', ph') == Effect(file, ph, p, 7 + p, false, op)
    ensures Reachable(policy, if p == 0 then Duo(file', ph', other) else Duo(file', other, ph'))
  {
    hide Reachable, Effect;
    var s := if p == 0 then Duo(file, ph, other) else Duo(file, other, ph);
    assert s.phase[p] == ph && s.pid[p] == 7 + p;
    assert OthersOutsideWindows(policy, s, p);
    assert op == Read ==> !HolderAlive(s);
    HolderOnlyRead(s, p, op);
    var s' := Do(policy, s, Step(p, op));
    assert s'.file == file' && s'.phase == s.phase[p := ph'];
    assert s'.phase == if p == 0 then map[0 := ph', 1 := other] else map[0 := other, 1 := ph'];
  }

  /** Only reading the file looks at the holder. */
  lemma HolderOnlyRead(s: State, p: nat, op: Op)
    requires WellFormed(s) && p in s.phase
    requires op == Read ==> !HolderAlive(s)
    ensures Apply(s, Step(p, op)) ==
            var (file, ph) := Effect(s.file, s.phase[p], p, s.pid[p], false, op);
            s.(file := file, phase := s.phase[p := ph])
  {
  }

  lemma BothHold(policy: Policy, file: Option<LockFile>)
    requires Reachable(policy, Duo(file, Holding, Holding))
    ensures !Safe(policy)
  {
    var s := Duo(file, Holding, Holding);
    assert At(s, 0, Holding) && At(s, 1, Holding);
  }

  /** Written after creation: a second contender reads the empty file as corrupt and reclaims it. */
  lemma TornCreate(policy: Policy)
    requires !policy.createAtomic
    ensures !Safe(policy)
  {
    hide Reachable, Safe, WellFormed;
    var e0, e1, f1 := Fresh(Empty, 0), Fresh(Empty, 1), Fresh(Pid(8), 1);
    Start(policy, Duo(None, Ready(0), Ready(0)));
    DuoStep(policy, None, Ready(0), Ready(0), 0, Open, e0, Created);
    DuoStep(policy, e0, Ready(0), Created, 1, Open, e0, Blocked);
    DuoStep(policy, e0, Blocked, Created, 1, Stat, e0, Statted);
    DuoStep(policy, e0, Statted, Created, 1, Read, e0, Condemned);
    DuoStep(policy, e0, Condemned, Created, 1, Reclaim, None, Ready(1));
    DuoStep(policy, None, Ready(1), Created, 1, Open, e1, Created);
    DuoStep(policy, e1, Created, Created, 0, Write, e1, Holding);
    DuoStep(policy, e1, Created, Holding, 1, Write, f1, Holding);
    BothHold(policy, f1);
  }

  /** Two contenders judge one dead holder's file stale; the slower removal hits the faster one's lock. */
  lemma TornReclaim(policy: Policy)
    requires !policy.reclaimAtomic
    ensures !Safe(policy)
  {
    hide Reachable, Safe, WellFormed;
    var dead, e0, f0, e1, f1 := Some(LockFile(Pid(9), false, None)), Fresh(Empty, 0), Fresh(Pid(7), 0),
        Fresh(Empty, 1), Fresh(Pid(8), 1);
    Start(policy, Duo(dead, Ready(0), Ready(0)));
    DuoStep(policy, dead, Ready(0), Ready(0), 0, Open, dead, Blocked);
    DuoStep(policy, dead, Ready(0), Blocked, 1, Open, dead, Blocked);
    DuoStep(policy, dead, Blocked, Blocked, 0, Stat, dead, Statted);
    DuoStep(policy, dead, Statted, Blocked, 0, Read, dead, Condemned);
    DuoStep(policy, dead, Blocked, Condemned, 1, Stat, dead, Statted);
    DuoStep(policy, dead, Statted, Condemned, 1, Read, dead, Condemned);
    DuoStep(policy, dead, Condemned, Condemned, 0, Reclaim, None, Ready(1));
    DuoStep(policy, None, Ready(1), Condemned, 0, Open, e0, Created);
    DuoStep(policy, e0, Created, Condemned, 0, Write, f0, Holding);
    DuoStep(policy, f0, Condemned, Holding, 1, Reclaim, None, Ready(1));
    DuoStep(policy, None, Ready(1), Holding, 1, Open, e1, Created);
    DuoStep(policy, e1, Created, Holding, 1, Write, f1, Holding);
    BothHold(policy, f1);
  }

  /** A live holder older than the age limit loses its lock. */
  lemma AgedHolder(policy: Policy)
    requires !policy.agesOnlyAbandoned
    ensures !Safe(policy)
  {
    hide Reachable, Safe, WellFormed;
    var e0, f0, e1, f1 := Fresh(Empty, 0), Fresh(Pid(7), 0), Fresh(Empty, 1), Fresh(Pid(8), 1);
    var a0 := Some(LockFile(Pid(7), true, Some(0)));
    Start(policy, Duo(None, Ready(0), Ready(0)));
    DuoStep(policy, None, Ready(0), Ready(0), 0, Open, e0, Created);
    DuoStep(policy, e0, Created, Ready(0), 0, Write, f0, Holding);
    var _ := Do(policy, Duo(f0, Holding, Ready(0)), Age);
    DuoStep(policy, a0, Ready(0), Holding, 1, Open, a0, Blocked);
    DuoStep(policy, a0, Blocked, Holding, 1, Stat, a0, Condemned);
    DuoStep(policy, a0, Condemned, Holding, 1, Reclaim, None, Ready(1));
    DuoStep(policy, None, Ready(1), Holding, 1, Open, e1, Created);
    DuoStep(policy, e1, Created, Holding, 1, Write, f1, Holding);
    BothHold(policy, f1);
  }

  /** The lock is safe over all runs exactly when all three hypotheses are met; PID reuse does not matter. */
  lemma SafeIff(policy: Policy)
    ensures Safe(policy) <==> policy.createAtomic && policy.reclaimAtomic && policy.agesOnlyAbandoned
  {
    if policy == ATOMIC { AtomicIsSafe(); }
    else if !policy.createAtomic { TornCreate(policy); }
    else if !policy.reclaimAtomic { TornReclaim(policy); }
    else { AgedHolder(policy); }
  }

  ghost predicate Stale(s: State, f: LockFile) {
    f.aged || f.payload.Empty? || !ProcessExists(s, f.payload.pid)
  }

  lemma SoloStep(policy: Policy, s: State, p: nat, op: Op) returns (s': State)
    requires Reachable(policy, s) && WellFormed(s) && OthersOutsideWindows(policy, s, p)
    requires p in s.phase && Fits(op, s.phase[p]) && op != Crash
    ensures Reachable(policy, s') && WellFormed(s') && OthersOutsideWindows(policy, s', p)
    ensures p in s'.phase && (s'.file, s'.phase[p]) == Effect(s.file, s.phase[p], p, s.pid[p], HolderAlive(s), op)
    ensures s'.pid == s.pid
    ensures forall pid :: ProcessExists(s', pid) <==> ProcessExists(s, pid)
    ensures forall q, ph | q != p :: At(s', q, ph) <==> At(s, q, ph)
  {
    hide Reachable;
    s' := Do(policy, s, Step(p, op));
    assert s'.phase == s.phase[p := s'.phase[p]] && s'.running == s.running;
    assert s.phase[p] != Dead && s'.phase[p] != Dead;
    hide Effect;
    forall q, ph | q != p ensures At(s', q, ph) <==> At(s, q, ph) { }
  }

  /** An undisturbed contender that found a file removes it and is ready again exactly if it is stale. */
  lemma SoloJudge(policy: Policy, s: State, p: nat) returns (s': State)
    requires Reachable(policy, s) && WellFormed(s) && At(s, p, Blocked) && OthersOutsideWindows(policy, s, p)
    requires s.file.Some?
    ensures Reachable(policy, s') && WellFormed(s') && OthersOutsideWindows(policy, s', p) && s'.pid == s.pid
    ensures if Stale(s, s.file.value) then At(s', p, Ready(1)) && s'.file.None?
            else At(s', p, Failed) && s'.file == s.file
    ensures forall q, ph | q != p :: At(s', q, ph) <==> At(s, q, ph)
  {
    hide Reachable, OthersOutsideWindows, ProcessExists, WellFormed;
    s' := SoloStep(policy, s, p, Stat);
    if !s.file.value.aged { s' := SoloStep(policy, s', p, Read); }
    if s'.phase[p] == Condemned { s' := SoloStep(policy, s', p, Reclaim); }
  }

  /** With no file in place it creates one and writes its PID. */
  lemma SoloCreate(policy: Policy, s: State, p: nat, attempt: nat) returns (s': State)
    requires Reachable(policy, s) && WellFormed(s) && At(s, p, Ready(attempt)) && OthersOutsideWindows(policy, s, p)
    requires s.file.None?
    ensures Reachable(policy, s') && At(s', p, Holding)
    ensures p in s.pid && s'.file == Some(LockFile(Pid(s.pid[p]), false, Some(p)))
    ensures forall q, ph | q != p :: At(s', q, ph) <==> At(s, q, ph)
  {
    hide Reachable, OthersOutsideWindows, ProcessExists;
    s' := SoloStep(policy, s, p, Open);
    s' := SoloStep(policy, s', p, Write);
  }

  /** An attempt that finds no file: it fails to create one, or cannot write it and removes it, or holds the lock. */
  lemma SoloAttempt(policy: Policy, s: State, p: nat, attempt: nat, openFails: set<nat>, writeFails: bool)
    returns (s': State)
    requires Reachable(policy, s) && WellFormed(s) && At(s, p, Ready(attempt)) && OthersOutsideWindows(policy, s, p)
    requires s.file.None?
    ensures Reachable(policy, s')
    ensures if attempt in openFails || writeFails then At(s', p, Failed) && s'.file.None?
            else At(s', p, Holding) && p in s.pid && s'.file == Some(LockFile(Pid(s.pid[p]), false, Some(p)))
    ensures forall q, ph | q != p :: At(s', q, ph) <==> At(s, q, ph)
  {
    hide Reachable, OthersOutsideWindows, ProcessExists;
    if attempt in openFails {
      s' := SoloStep(policy, s, p, OpenError);
    } else if writeFails {
      s' := SoloStep(policy, s, p, Open);
      s' := SoloStep(policy, s', p, WriteError);
    } else {
      s' := SoloCreate(policy, s, p, attempt);
    }
  }

  /** What an undisturbed acquire comes to: whether it succeeds, and the file it leaves. */
  function Outcome(file: Option<LockFile>, running: set<int>, p: nat, pid: int, openFails: set<nat>, writeFails: bool)
    : (bool, Option<LockFile>)
  {
    if 0 in openFails || (file.Some? && !StaleFile(file.value, running)) then (false, file)
    else if (file.Some? && 1 in openFails) || writeFails then (false, None)
    else (true, Some(LockFile(Pid(pid), false, Some(p))))
  }

  /**
   * An undisturbed contender, its steps taken one by one, comes to just that, where the existing processes are those
   * named by `running`: whatever file is in place and whichever calls fail.
   */
  lemma SoloAcquire(policy: Policy, s: State, p: nat, running: set<int>, openFails: set<nat>, writeFails: bool)
    returns (s': State)
    requires Reachable(policy, s) && WellFormed(s) && At(s, p, Ready(0)) && OthersOutsideWindows(policy, s, p)
    requires forall pid :: ProcessExists(s, pid) <==> pid > 0 && pid in running
    ensures Reachable(policy, s') && p in s.pid && (At(s', p, Holding) || At(s', p, Failed))
    ensures (At(s', p, Holding), s'.file) == Outcome(s.file, running, p, s.pid[p], openFails, writeFails)
    ensures forall q, ph | q != p :: At(s', q, ph) <==> At(s, q, ph)
  {
    hide Reachable, OthersOutsideWindows, ProcessExists;
    if 0 in openFails {
      s' := SoloStep(policy, s, p, OpenError);
    } else if s.file.None? {
      s' := SoloAttempt(policy, s, p, 0, openFails, writeFails);
    } else {
      s' := SoloStep(policy, s, p, Open);
      s' := SoloJudge(policy, s', p);
      if s'.file.None? { s' := SoloAttempt(policy, s', p, 1, openFails, writeFails); }
    }
  }

  /** Without errors it gets the lock exactly if there is no file, an old or corrupt one, or one of a dead process. */
  lemma SoloHolds(policy: Policy, s: State, p: nat) returns (s': State)
    requires Reachable(policy, s) && WellFormed(s) && At(s, p, Ready(0)) && OthersOutsideWindows(policy, s, p)
    ensures Reachable(policy, s') && p in s.pid
    ensures At(s', p, Holding) <==>
              match s.file
              case None => true
              case Some(f) =>
                f.aged || f.payload == Empty
                || !(f.payload.pid > 0
                     && (f.payload.pid in s.running
                         || exists q :: q in s.phase && q in s.pid && s.phase[q] != Dead && s.pid[q] == f.payload.pid))
    ensures At(s', p, Holding) ==> s'.file == Some(LockFile(Pid(s.pid[p]), false, Some(p)))
    ensures !At(s', p, Holding) ==> At(s', p, Failed) && s'.file == s.file
    ensures forall q, ph | q != p :: At(s', q, ph) <==> At(s, q, ph)
  {
    var running := s.running + set q | q in s.phase && q in s.pid && s.phase[q] != Dead :: s.pid[q];
    hide Reachable, OthersOutsideWindows;
    s' := SoloAcquire(policy, s, p, running, {}, false);
  }

  /** How many steps a contender in this phase can still take. */
  function StepsLeft(ph: Phase): nat {
    match ph
    case Ready(attempt) => if attempt == 0 then 8 else 4
    case Blocked => 7
    case Statted => 6
    case Condemned => 5
    case Created => 3
    case Holding => 2
    case Released | Failed => 1
    case Dead => 0
  }

  function StepsOf(actions: seq<Action>, p: nat): nat {
    if actions == [] then 0
    else
      var a := actions[|actions| - 1];
      StepsOf(actions[..|actions| - 1], p) + if a.Step? && a.p == p then 1 else 0
  }

  /** A step of p takes from what p has left, any other leaves it. */
  lemma StepTakes(policy: Policy, s: State, a: Action, s': State, p: nat)
    requires Next(policy, s, a, s') && p in s.phase
    ensures p in s'.phase
    ensures StepsLeft(s'.phase[p]) + (if a.Step? && a.p == p then 1 else 0) <= StepsLeft(s.phase[p])
  {
    hide ProcessExists, OthersOutsideWindows;
  }

  /** Nobody waits: in every run, under any schedule, a contender has taken at most eight steps. */
  lemma {:induction false} StepsBounded(policy: Policy, states: seq<State>, actions: seq<Action>, p: nat, n: nat)
    requires IsRun(policy, states, actions) && n <= |actions| && p in states[0].phase
    ensures p in states[n].phase && StepsOf(actions[..n], p) + StepsLeft(states[n].phase[p]) <= 8
    ensures StepsOf(actions[..n], p) <= 8
  {
    hide Next;
    if n > 0 {
      StepsBounded(policy, states, actions, p, n - 1);
      assert actions[..n][..n - 1] == actions[..n - 1];
      StepTakes(policy, states[n - 1], actions[n - 1], states[n - 1 + 1], p);
    }
  }

  /** A release makes room: the next undisturbed contender holds the lock. */
  lemma ReleaseLetsNextIn(policy: Policy, s: State, p: nat, q: nat) returns (s': State)
    requires Reachable(policy, s) && WellFormed(s) && At(s, p, Holding) && At(s, q, Ready(0)) && p != q
    requires OthersOutsideWindows(policy, s, p) && OthersOutsideWindows(policy, s, q)
    ensures Reachable(policy, s') && At(s', p, Released) && At(s', q, Holding)
  {
    hide Reachable, ProcessExists;
    s' := SoloStep(policy, s, p, Release);
    assert At(s', p, Released) && At(s', q, Ready(0));
    assert OthersOutsideWindows(policy, s', q);
    s' := SoloCreate(policy, s', q, 0);
  }

  /**
   * A contender can fail with nobody holding the lock: it finds the file in place, the holder leaves, and its look at
   * the file fails.
   */
  lemma FailsWithoutHolder(policy: Policy)
    ensures Reachable(policy, Duo(None, Released, Failed))
  {
    hide Reachable, WellFormed;
    var e0, f0 := Fresh(Empty, 0), Fresh(Pid(7), 0);
    Start(policy, Duo(None, Ready(0), Ready(0)));
    DuoStep(policy, None, Ready(0), Ready(0), 0, Open, e0, Created);
    DuoStep(policy, e0, Created, Ready(0), 0, Write, f0, Holding);
    DuoStep(policy, f0, Ready(0), Holding, 1, Open, f0, Blocked);
    DuoStep(policy, f0, Holding, Blocked, 0, Release, None, Released);
    DuoStep(policy, None, Blocked, Released, 1, Stat, None, Failed);
  }

  /** A crash makes room, too, unless another process goes by the holder's PID. */
  lemma CrashLetsNextIn(policy: Policy, s: State, p: nat, q: nat) returns (s': State)
    requires Reachable(policy, s) && Inv(s) && At(s, p, Holding) && At(s, q, Ready(0)) && p != q
    requires OthersOutsideWindows(policy, s, q)
    requires s.pid[p] !in s.running && forall r | r in s.phase && r != p :: s.pid[r] != s.pid[p]
    ensures Reachable(policy, s') && At(s', p, Dead) && At(s', q, Holding)
  {
    hide Reachable;
    s' := Do(policy, s, Step(p, Crash));
    assert s'.phase == s.phase[p := Dead] && s'.file == s.file && s'.running == s.running && s'.pid == s.pid;
    assert At(s', p, Dead) && At(s', q, Ready(0)) && OthersOutsideWindows(policy, s', q);
    assert !ProcessExists(s', s.pid[p]);
    s' := SoloHolds(policy, s', q);
  }

  predicate StaleFile(f: LockFile, running: set<int>) {
    f.aged || f.payload.Empty? || f.payload.pid <= 0 || f.payload.pid !in running
  }

  /** One project's lock path, as a process that is not interfered with sees it. */
  class LockPath {
    var file: Option<LockFile>
    var running: set<int>

    /**
     * The retry loop: create exclusively; on an existing stale file remove it and try once more.
     * `openFails` are the attempts at which creating fails for another reason than an existing file.
     */
    method AcquireProjectLock(p: nat, pid: int, openFails: set<nat>, writeFails: bool) returns (ok: bool)
      modifies this`file
      ensures (ok, file) == Outcome(old(file), running, p, pid, openFails, writeFails)
      ensures 0 !in openFails && old(file).Some? && !old(file).value.aged && old(file).value.payload.Pid?
              && old(file).value.payload.pid > 0 && old(file).value.payload.pid in running
              ==> !ok && file == old(file)
    {
      for attempt := 0 to 2
        invariant attempt == 0 ==> file == old(file)
        invariant attempt == 1 ==> file.None? && old(file).Some? && StaleFile(old(file).value, running)
        invariant attempt < 2 && (attempt == 1 ==> 0 !in openFails)
      {
        if attempt in openFails { return false; }
        if file.None? {
          file := Some(LockFile(Empty, false, Some(p)));
          if writeFails {
            file := None;
            return false;
          }
          file := Some(file.value.(payload := Pid(pid)));
          return true;
        }
        if attempt == 0 && StaleFile(file.value, running) {
          file := None;
        } else {
          return false;
        }
      }
      return false;
    }

    /** Removes whatever is at the path. */
    method Release()
      modifies this`file
      ensures file == None
    {
      file := None;
    }
  }
}
