/**
 Replacing a tenant's program while requests run: one updater, and any number of requests that
 fork, use and destroy scripts. Each step is one atomic action of one thread; MachineInstance is
 shared through counted references.
 */
module LiveUpdate {
  import opened Bytes

  type Inst = nat

  /** Every variable that can hold a shared_ptr<MachineInstance>. */
  datatype Holder =
    | Program
    | DebugProgram
    | UpdaterInst
    | UpdaterOld
    | Local(task: nat)
    | Member(task: nat)

  /** The references, their counters, and the instances whose counter has reached zero. */
  datatype Shared = Shared(holders: map<Holder, Inst>, count: map<Inst, nat>, released: set<Inst>)

  function Acquire(s: Shared, h: Holder, i: Inst): Shared
    requires i in s.count
  {
    s.(holders := s.holders[h := i], count := s.count[i := s.count[i] + 1])
  }

  function Drop(s: Shared, h: Holder): Shared
    requires h in s.holders && s.holders[h] in s.count && s.count[s.holders[h]] > 0
  {
    var i := s.holders[h];
    Shared(s.holders - {h}, s.count[i := s.count[i] - 1], if s.count[i] == 1 then s.released + {i} else s.released)
  }

  /** std::move between two references. */
  function Move(s: Shared, from: Holder, to: Holder): Shared
    requires from in s.holders
  {
    s.(holders := (s.holders - {from})[to := s.holders[from]])
  }

  ghost function Held(holders: map<Holder, Inst>, i: Inst): set<Holder> {
    set h | h in holders && holders[h] == i
  }

  ghost predicate CountOk(s: Shared, i: Inst)
    requires i in s.count
  {
    s.count[i] == |Held(s.holders, i)| && (i in s.released <==> s.count[i] == 0)
  }

  /** Counters count the references, and an instance is released when the last reference to it goes. */
  ghost predicate RefsOk(s: Shared) {
    && (forall h | h in s.holders :: s.holders[h] in s.count)
    && s.released <= s.count.Keys
    && (forall i {:trigger CountOk(s, i)} | i in s.count :: CountOk(s, i))
  }

  lemma {:induction false} HolderAlive(s: Shared, h: Holder)
    requires RefsOk(s) && h in s.holders
    ensures s.holders[h] in s.count && s.count[s.holders[h]] > 0 && s.holders[h] !in s.released
  {
    assert CountOk(s, s.holders[h]);
    assert h in Held(s.holders, s.holders[h]);
  }

  /** A new reference to an instance that is held, or that has just been created. */
  lemma {:induction false} AcquireOk(s: Shared, h: Holder, i: Inst)
    requires RefsOk(s) && i in s.count && h !in s.holders && i !in s.released
    ensures RefsOk(Acquire(s, h, i))
  {
    var s' := Acquire(s, h, i);
    forall j | j in s'.count ensures CountOk(s', j) {
      assert CountOk(s, j);
      if j == i {
        assert Held(s'.holders, i) == Held(s.holders, i) + {h};
      } else {
        assert Held(s'.holders, j) == Held(s.holders, j);
      }
    }
  }

  lemma {:induction false} NewOk(s: Shared, h: Holder, i: Inst)
    requires RefsOk(s) && i !in s.count && h !in s.holders
    ensures RefsOk(Shared(s.holders[h := i], s.count[i := 1], s.released))
  {
    var s' := Shared(s.holders[h := i], s.count[i := 1], s.released);
    forall j | j in s'.count ensures CountOk(s', j) {
      if j == i {
        assert Held(s'.holders, i) == {h};
      } else {
        assert CountOk(s, j);
        assert Held(s'.holders, j) == Held(s.holders, j);
      }
    }
  }

  lemma {:induction false} DropOk(s: Shared, h: Holder)
    requires RefsOk(s) && h in s.holders
    ensures s.holders[h] in s.count && s.count[s.holders[h]] > 0 && RefsOk(Drop(s, h))
  {
    HolderAlive(s, h);
    var s', i := Drop(s, h), s.holders[h];
    forall j | j in s'.count ensures CountOk(s', j) {
      assert CountOk(s, j);
      if j == i {
        assert Held(s.holders, i) == Held(s'.holders, i) + {h};
      } else {
        assert Held(s'.holders, j) == Held(s.holders, j);
      }
    }
  }

  lemma {:induction false} MoveOk(s: Shared, from: Holder, to: Holder)
    requires RefsOk(s) && from in s.holders && to !in s.holders
    ensures RefsOk(Move(s, from, to))
  {
    var s', i := Move(s, from, to), s.holders[from];
    forall j | j in s'.count ensures CountOk(s', j) {
      assert CountOk(s, j);
      if j == i {
        assert Held(s'.holders, i) == Held(s.holders, i) - {from} + {to};
      } else {
        assert Held(s'.holders, j) == Held(s.holders, j);
      }
    }
  }

  // ---- The threads ----------------------------------------------------------------------------------

  /** riscv_update_file with or without an extra argument, and riscv_update. */
  datatype Kind = File(arg: Option<string>) | Binary(debug: bool)

  /** Where the updater is; what it has read of argv; and whether all has gone well since the exchange. */
  datatype Phase =
    | Idle
    | Begun(kind: Kind, argvRead: seq<string>)
    | Extended(kind: Kind, argvRead: seq<string>)
    | Failed(kind: Kind, argvRead: seq<string>)
    | Built(kind: Kind, argvRead: seq<string>)
    | Ready(kind: Kind)
    | Swapped(kind: Kind, ok: bool)
    | Finishing(kind: Kind, ok: bool)

  /** What the last update has told its client. */
  datatype Report = NoReport | UpdateSuccessful | UpdateFailed

  /**
   A request: it has read the program, has constructed the script, has given it the reference, has
   run the body of the destructor, has destroyed the member that holds the reference. That member
   is declared last, so it is destroyed before all others.
   */
  datatype Task =
    | Loaded(inst: Inst)
    | Constructed(inst: Inst)
    | Active(inst: Inst)
    | BodyDone(inst: Inst)
    | RefDropped(inst: Inst)

  /** base is the tenant's argv; args is the argv with which each instance was constructed. */
  datatype State = State(shared: Shared, phase: Phase, tasks: map<nat, Task>,
                         argv: seq<string>, base: seq<string>, args: map<Inst, seq<string>>, report: Report)

  datatype Op =
    | Begin(kind: Kind) | Extend | Build(inst: Inst) | Throw | Unwind | Restore | Swap | FailLate | DropOld | Finish
    | LoadProgram(task: nat, debug: bool) | Abandon(task: nat) | Construct(task: nat) | Assign(task: nat)
    | RunBody(task: nat) | DropRef(task: nat) | FreeScript(task: nat)

  /** The slot from which vmfork takes the program. */
  function SlotFor(debug: bool): Holder {
    if debug then DebugProgram else Program
  }

  function Target(kind: Kind): Holder {
    SlotFor(kind.Binary? && kind.debug)
  }

  /** The updater may construct an instance: argv has been extended, if it is to be. */
  predicate CanBuild(phase: Phase) {
    phase.Extended? || (phase.Begun? && !(phase.kind.File? && phase.kind.arg.Some?))
  }

  /** The transfer of state from the old program throws, or the new binary cannot be written to its file. */
  predicate CanFailLate(holders: map<Holder, Inst>, kind: Kind) {
    UpdaterOld in holders || kind == Binary(false)
  }

  ghost predicate Enabled(st: State, op: Op) {
    match op
    case Begin(_) => st.phase.Idle?
    case Extend => st.phase.Begun? && !CanBuild(st.phase)
    case Build(i) => CanBuild(st.phase) && i !in st.shared.count
    case Throw => CanBuild(st.phase)
    case Unwind => st.phase.Failed?
    case Restore => st.phase.Built?
    case Swap => st.phase.Ready?
    case FailLate => st.phase.Swapped? && CanFailLate(st.shared.holders, st.phase.kind)
    case DropOld => st.phase.Swapped?
    case Finish => st.phase.Finishing?
    case LoadProgram(k, debug) => k !in st.tasks && SlotFor(debug) in st.shared.holders
    case Abandon(k) => k in st.tasks && st.tasks[k].Loaded?
    case Construct(k) => k in st.tasks && st.tasks[k].Loaded?
    case Assign(k) => k in st.tasks && st.tasks[k].Constructed?
    case RunBody(k) => k in st.tasks && st.tasks[k].Active?
    case DropRef(k) => k in st.tasks && st.tasks[k].BodyDone?
    case FreeScript(k) => k in st.tasks && st.tasks[k].RefDropped?
  }

  /** Before the exchange the new instance is the updater's alone. */
  ghost predicate OnlyUpdaters(holders: map<Holder, Inst>) {
    UpdaterInst in holders && forall h | h in holders && holders[h] == holders[UpdaterInst] :: h == UpdaterInst
  }

  /** After it the instance is in its slot. */
  ghost predicate Installed(holders: map<Holder, Inst>, slot: Holder) {
    UpdaterInst in holders && slot in holders && holders[slot] == holders[UpdaterInst]
  }

  ghost predicate PhaseOk(st: State) {
    var holders := st.shared.holders;
    && (UpdaterInst in holders <==> st.phase.Built? || st.phase.Ready? || st.phase.Swapped? || st.phase.Finishing?)
    && (UpdaterOld in holders ==> st.phase.Swapped?)
    && (st.phase.Built? || st.phase.Ready? ==> OnlyUpdaters(holders))
    && (st.phase.Swapped? || st.phase.Finishing? ==> Installed(holders, Target(st.phase.kind)))
    && (match st.phase
        case Idle => st.argv == st.base
        case Begun(_, seen) => st.argv == st.base && seen == st.base
        case Extended(kind, seen) =>
          kind.File? && kind.arg.Some? && seen == st.base && st.argv == st.base + [kind.arg.value]
        case Failed(kind, seen) => seen == st.base && ArgvInUse(kind, st.base, st.argv)
        case Built(kind, seen) => seen == st.base && ArgvInUse(kind, st.base, st.argv)
        case Ready(_) => st.argv == st.base
        case Swapped(_, _) => st.argv == st.base
        case Finishing(_, _) => st.argv == st.base)
  }

  /** The argv with which an instance is constructed. */
  ghost predicate ArgvInUse(kind: Kind, base: seq<string>, argv: seq<string>) {
    argv == if kind.File? && kind.arg.Some? then base + [kind.arg.value] else base
  }

  ghost predicate TaskOk(holders: map<Holder, Inst>, tasks: map<nat, Task>, k: nat) {
    if k !in tasks || tasks[k].RefDropped? then Local(k) !in holders && Member(k) !in holders
    else if tasks[k].Loaded? || tasks[k].Constructed? then
      Local(k) in holders && holders[Local(k)] == tasks[k].inst && Member(k) !in holders
    else
      Member(k) in holders && holders[Member(k)] == tasks[k].inst && Local(k) !in holders
  }

  /** The variable in which a request holds its reference. */
  ghost function HolderOf(task: Task, k: nat): Holder {
    if task.Loaded? || task.Constructed? then Local(k) else Member(k)
  }

  ghost predicate Inv(st: State) {
    && RefsOk(st.shared) && PhaseOk(st)
    && forall k {:trigger TaskOk(st.shared.holders, st.tasks, k)} :: TaskOk(st.shared.holders, st.tasks, k)
  }

  ghost function Step(st: State, op: Op): State
    requires Inv(st) && Enabled(st, op)
  {
    var s := st.shared;
    match op
    case Begin(kind) => st.(phase := Begun(kind, st.argv))
    case Extend =>
      st.(phase := Extended(st.phase.kind, st.phase.argvRead), argv := st.phase.argvRead + [st.phase.kind.arg.value])
    case Build(i) =>
      st.(shared := Shared(s.holders[UpdaterInst := i], s.count[i := 1], s.released),
          phase := Built(st.phase.kind, st.phase.argvRead), args := st.args[i := st.argv])
    case Throw => st.(phase := Failed(st.phase.kind, st.phase.argvRead))
    case Unwind =>
      st.(phase := Idle, argv := if st.phase.kind.File? then st.phase.argvRead else st.argv, report := UpdateFailed)
    case Restore =>
      st.(phase := Ready(st.phase.kind), argv := if st.phase.kind.File? then st.phase.argvRead else st.argv)
    case Swap => st.(phase := Swapped(st.phase.kind, true), shared := Exchanged(st, Target(st.phase.kind)))
    case FailLate => st.(phase := Swapped(st.phase.kind, false))
    case DropOld =>
      DropUpdaterOld(st);
      st.(phase := Finishing(st.phase.kind, st.phase.ok),
          shared := if UpdaterOld in s.holders then Drop(s, UpdaterOld) else s)
    case Finish =>
      DropOk(s, UpdaterInst);
      st.(phase := Idle, shared := Drop(s, UpdaterInst),
          report := if st.phase.ok then UpdateSuccessful else UpdateFailed)
    case LoadProgram(k, debug) =>
      var i := s.holders[SlotFor(debug)];
      st.(tasks := st.tasks[k := Loaded(i)], shared := Acquire(s, Local(k), i))
    case Abandon(k) =>
      TaskAlive(st, k);
      st.(tasks := st.tasks - {k}, shared := Drop(s, Local(k)))
    case Construct(k) => st.(tasks := st.tasks[k := Constructed(st.tasks[k].inst)])
    case Assign(k) =>
      TaskAlive(st, k);
      st.(tasks := st.tasks[k := Active(st.tasks[k].inst)], shared := Move(s, Local(k), Member(k)))
    case RunBody(k) => st.(tasks := st.tasks[k := BodyDone(st.tasks[k].inst)])
    case DropRef(k) =>
      TaskAlive(st, k);
      st.(tasks := st.tasks[k := RefDropped(st.tasks[k].inst)], shared := Drop(s, Member(k)))
    case FreeScript(k) => st.(tasks := st.tasks - {k})
  }

  /** std::atomic_exchange: the updater's instance goes into the slot, and what was there to the updater. */
  ghost function Exchanged(st: State, slot: Holder): Shared
    requires Inv(st) && st.phase.Ready?
  {
    var s := st.shared;
    HolderAlive(s, UpdaterInst);
    var s' := if slot in s.holders then Move(s, slot, UpdaterOld) else s;
    Acquire(s', slot, s.holders[UpdaterInst])
  }

  lemma {:induction false} DropUpdaterOld(st: State)
    requires Inv(st) && st.phase.Swapped?
    ensures UpdaterOld in st.shared.holders
            ==> st.shared.holders[UpdaterOld] in st.shared.count && st.shared.count[st.shared.holders[UpdaterOld]] > 0
  {
    if UpdaterOld in st.shared.holders {
      DropOk(st.shared, UpdaterOld);
    }
  }

  /** The reference of a request, and the instance it keeps alive. */
  lemma {:induction false} TaskAlive(st: State, k: nat)
    requires Inv(st) && k in st.tasks && !st.tasks[k].RefDropped?
    ensures var h := HolderOf(st.tasks[k], k);
            && h in st.shared.holders && st.shared.holders[h] == st.tasks[k].inst
            && st.tasks[k].inst in st.shared.count && st.shared.count[st.tasks[k].inst] > 0
            && st.tasks[k].inst !in st.shared.released
  {
    assert TaskOk(st.shared.holders, st.tasks, k);
    HolderAlive(st.shared, HolderOf(st.tasks[k], k));
  }

  // ---- What every step keeps --------------------------------------------------------------------------

  ghost predicate IsTaskOp(op: Op) {
    op.LoadProgram? || op.Abandon? || op.Construct? || op.Assign? || op.RunBody? || op.DropRef? || op.FreeScript?
  }

  lemma {:induction false} UpdaterRefs(st: State, op: Op)
    requires Inv(st) && Enabled(st, op) && !IsTaskOp(op)
    ensures RefsOk(Step(st, op).shared)
  {
    var s := st.shared;
    hide RefsOk, OnlyUpdaters, Installed, ArgvInUse;
    match op {
      case Build(i) => NewOk(s, UpdaterInst, i);
      case Finish => DropOk(s, UpdaterInst);
      case Swap =>
        var slot := Target(st.phase.kind);
        HolderAlive(s, UpdaterInst);
        if slot in s.holders {
          MoveOk(s, slot, UpdaterOld);
          AcquireOk(Move(s, slot, UpdaterOld), slot, s.holders[UpdaterInst]);
        } else {
          AcquireOk(s, slot, s.holders[UpdaterInst]);
        }
      case DropOld =>
        if UpdaterOld in s.holders {
          DropOk(s, UpdaterOld);
        }
      case _ =>
    }
  }

  lemma {:induction false} UpdaterPhase(st: State, op: Op)
    requires Inv(st) && Enabled(st, op) && !IsTaskOp(op)
    ensures PhaseOk(Step(st, op))
  {
    if op.Build? {
      NotHeld(st.shared, op.inst);
    }
    hide RefsOk, TaskOk;
  }

  lemma {:induction false} NotHeld(s: Shared, i: Inst)
    requires RefsOk(s) && i !in s.count
    ensures forall h | h in s.holders :: s.holders[h] != i
  {
  }

  lemma {:induction false} UpdaterTasks(st: State, op: Op, k: nat)
    requires Inv(st) && Enabled(st, op) && !IsTaskOp(op)
    ensures TaskOk(Step(st, op).shared.holders, Step(st, op).tasks, k)
  {
    assert TaskOk(st.shared.holders, st.tasks, k);
    hide RefsOk;
  }

  lemma {:induction false} TaskRefs(st: State, op: Op)
    requires Inv(st) && Enabled(st, op) && IsTaskOp(op)
    ensures RefsOk(Step(st, op).shared)
  {
    var s, k := st.shared, op.task;
    assert TaskOk(s.holders, st.tasks, k);
    hide RefsOk, PhaseOk;
    match op {
      case LoadProgram(_, debug) =>
        var slot := SlotFor(debug);
        HolderAlive(s, slot);
        AcquireOk(s, Local(k), s.holders[slot]);
      case Abandon(_) => DropOk(s, Local(k));
      case Assign(_) => MoveOk(s, Local(k), Member(k));
      case DropRef(_) => DropOk(s, Member(k));
      case _ =>
    }
  }

  lemma {:induction false} TaskPhase(st: State, op: Op)
    requires Inv(st) && Enabled(st, op) && IsTaskOp(op)
    ensures PhaseOk(Step(st, op))
  {
    assert TaskOk(st.shared.holders, st.tasks, op.task);
    hide RefsOk, TaskOk, ArgvInUse;
  }

  lemma {:induction false} TaskTasks(st: State, op: Op, k: nat)
    requires Inv(st) && Enabled(st, op) && IsTaskOp(op)
    ensures TaskOk(Step(st, op).shared.holders, Step(st, op).tasks, k)
  {
    assert TaskOk(st.shared.holders, st.tasks, k) && TaskOk(st.shared.holders, st.tasks, op.task);
    hide RefsOk, PhaseOk;
  }

  lemma {:induction false} StepInv(st: State, op: Op)
    requires Inv(st) && Enabled(st, op)
    ensures Inv(Step(st, op))
  {
    hide Step, Enabled, RefsOk, PhaseOk, TaskOk;
    var st' := Step(st, op);
    if IsTaskOp(op) {
      TaskRefs(st, op);
      TaskPhase(st, op);
    } else {
      UpdaterRefs(st, op);
      UpdaterPhase(st, op);
    }
    forall k ensures TaskOk(st'.shared.holders, st'.tasks, k) {
      if IsTaskOp(op) {
        TaskTasks(st, op, k);
      } else {
        UpdaterTasks(st, op, k);
      }
    }
  }

  ghost predicate Legal(st: State, ops: seq<Op>)
    requires Inv(st)
    decreases ops
  {
    ops == [] || (Enabled(st, ops[0]) && (StepInv(st, ops[0]); Legal(Step(st, ops[0]), ops[1..])))
  }

  ghost function Run(st: State, ops: seq<Op>): (st': State)
    requires Inv(st) && Legal(st, ops)
    ensures Inv(st')
    decreases ops
  {
    if ops == [] then st else StepInv(st, ops[0]); Run(Step(st, ops[0]), ops[1..])
  }

  /** In every reachable state, a script's instance is alive until the body of its destructor has ended. */
  lemma {:induction false} InstanceOutlivesBody(st: State, ops: seq<Op>, k: nat)
    requires Inv(st) && Legal(st, ops) && k in Run(st, ops).tasks && !Run(st, ops).tasks[k].RefDropped?
    ensures Run(st, ops).tasks[k].inst !in Run(st, ops).shared.released
  {
    hide Inv;
    TaskAlive(Run(st, ops), k);
  }

  lemma {:induction false} StepKeepsInstance(st: State, op: Op, k: nat)
    requires Inv(st) && Enabled(st, op) && k in st.tasks && op != Abandon(k) && op != FreeScript(k)
    ensures k in Step(st, op).tasks && Step(st, op).tasks[k].inst == st.tasks[k].inst
  {
    hide Inv;
  }

  /**
   As long as it exists, a script keeps the instance it was forked from, whatever the other threads
   do; and the reference that it holds, until it is destroyed, is to that instance.
   */
  lemma {:induction false} KeepsInstance(st: State, ops: seq<Op>, k: nat)
    requires Inv(st) && Legal(st, ops) && k in st.tasks && Abandon(k) !in ops && FreeScript(k) !in ops
    ensures k in Run(st, ops).tasks && Run(st, ops).tasks[k].inst == st.tasks[k].inst
    ensures var st' := Run(st, ops);
            !st'.tasks[k].RefDropped? ==>
              var h := HolderOf(st'.tasks[k], k);
              h in st'.shared.holders && st'.shared.holders[h] == st.tasks[k].inst
              && st.tasks[k].inst !in st'.shared.released
    decreases ops
  {
    hide Inv, Step, Enabled;
    if ops != [] {
      StepInv(st, ops[0]);
      StepKeepsInstance(st, ops[0], k);
      KeepsInstance(Step(st, ops[0]), ops[1..], k);
    } else if !st.tasks[k].RefDropped? {
      TaskAlive(st, k);
    }
  }

  /** An instance that is released stays so, and the updater and the slots never hold such an instance. */
  lemma {:induction false} ReleasedForGood(st: State, op: Op, h: Holder)
    requires Inv(st) && Enabled(st, op)
    ensures st.shared.released <= Step(st, op).shared.released
    ensures h in st.shared.holders ==> st.shared.holders[h] !in st.shared.released
  {
    if h in st.shared.holders {
      HolderAlive(st.shared, h);
    }
    hide Inv;
  }

  /** Without an exchange both program slots stay as they are: an update whose construction throws changes neither. */
  lemma {:induction false} NoSwapNoChange(st: State, ops: seq<Op>, slot: Holder)
    requires Inv(st) && Legal(st, ops) && Swap !in ops && (slot == Program || slot == DebugProgram)
    ensures slot in Run(st, ops).shared.holders <==> slot in st.shared.holders
    ensures slot in st.shared.holders ==> Run(st, ops).shared.holders[slot] == st.shared.holders[slot]
    decreases ops
  {
    hide Inv, Step, Enabled;
    if ops != [] {
      StepInv(st, ops[0]);
      OnlySwapReplaces(st, ops[0], slot);
      NoSwapNoChange(Step(st, ops[0]), ops[1..], slot);
    }
  }

  /** Only the exchange changes a program slot, and only the one it is for. */
  lemma {:induction false} OnlySwapReplaces(st: State, op: Op, slot: Holder)
    requires Inv(st) && Enabled(st, op) && (slot == Program || slot == DebugProgram)
    requires !(op.Swap? && Target(st.phase.kind) == slot)
    ensures slot in Step(st, op).shared.holders <==> slot in st.shared.holders
    ensures slot in st.shared.holders ==> Step(st, op).shared.holders[slot] == st.shared.holders[slot]
  {
    hide RefsOk;
  }

  /** The exchange puts the new instance, constructed with the argv meant for it, into its slot. */
  lemma {:induction false} SwapReplaces(st: State)
    requires Inv(st) && Enabled(st, Swap)
    ensures var s, s', slot := st.shared, Step(st, Swap).shared, Target(st.phase.kind);
            && UpdaterInst in s.holders && slot in s'.holders && s'.holders[slot] == s.holders[UpdaterInst]
            && (slot in s.holders <==> UpdaterOld in s'.holders)
            && (slot in s.holders ==> s'.holders[UpdaterOld] == s.holders[slot]) && s'.released == s.released
  {
    hide RefsOk;
  }

  lemma {:induction false} Next(st: State, op: Op) returns (st': State)
    requires Inv(st) && Enabled(st, op)
    ensures st' == Step(st, op) && Inv(st')
  {
    StepInv(st, op);
    st' := Step(st, op);
  }

  /** A new request can load a program exactly if there is one in the slot, and it stays on that one. */
  lemma {:induction false} LoadTakes(st: State, k: nat, debug: bool, later: seq<Op>)
    requires Inv(st) && k !in st.tasks
    ensures Enabled(st, LoadProgram(k, debug)) <==> SlotFor(debug) in st.shared.holders
    ensures later != [] && later[0] == LoadProgram(k, debug) && Legal(st, later)
            && Abandon(k) !in later && FreeScript(k) !in later ==>
              && SlotFor(debug) in st.shared.holders && k in Run(st, later).tasks
              && Run(st, later).tasks[k].inst == st.shared.holders[SlotFor(debug)]
  {
    if later != [] && later[0] == LoadProgram(k, debug) && Legal(st, later)
       && Abandon(k) !in later && FreeScript(k) !in later {
      var st1 := Next(st, later[0]);
      assert st1.tasks[k].inst == st.shared.holders[SlotFor(debug)];
      hide Inv, Step, Enabled;
      KeepsInstance(st1, later[1..], k);
    }
  }

  /**
   Once an instance has been installed, and until the next exchange, each new request for that slot gets
   it, and no other instance for as long as it lasts; the other slot is as before the exchange.
   */
  lemma {:induction false} NewRequestGetsIt(st: State, ops: seq<Op>, k: nat, debug: bool, later: seq<Op>)
    requires Inv(st) && ops != [] && ops[0] == Swap && Swap !in ops[1..] && Legal(st, ops)
    requires k !in Run(st, ops).tasks && (debug <==> st.phase.kind == Binary(true))
    ensures var other := if debug then Program else DebugProgram;
            && (other in Run(st, ops).shared.holders <==> other in st.shared.holders)
            && (other in st.shared.holders ==> Run(st, ops).shared.holders[other] == st.shared.holders[other])
    ensures UpdaterInst in st.shared.holders && Enabled(Run(st, ops), LoadProgram(k, debug))
    ensures later != [] && later[0] == LoadProgram(k, debug) && Legal(Run(st, ops), later)
            && Abandon(k) !in later && FreeScript(k) !in later ==>
              && k in Run(Run(st, ops), later).tasks
              && Run(Run(st, ops), later).tasks[k].inst == st.shared.holders[UpdaterInst]
  {
    SwapReplaces(st);
    var st1 := Next(st, Swap);
    hide Inv, Step, Enabled;
    var other := if debug then Program else DebugProgram;
    OnlySwapReplaces(st, Swap, other);
    NoSwapNoChange(st1, ops[1..], other);
    NoSwapNoChange(st1, ops[1..], SlotFor(debug));
    LoadTakes(Run(st, ops), k, debug, later);
  }

  /** argv is the tenant's, or the tenant's with the argument added; and it is the tenant's when the updater is done. */
  lemma {:induction false} ArgvRestored(st: State, ops: seq<Op>)
    requires Inv(st) && Legal(st, ops)
    ensures var st' := Run(st, ops);
            && st'.base == st.base
            && (st'.argv == st.base || (Constructing(st'.phase) && st'.argv == st.base + [st'.phase.kind.arg.value]))
            && (st'.phase.Idle? ==> st'.argv == st.base)
  {
    hide RefsOk;
    BaseFixed(st, ops);
  }

  /** The updater has an argument to add, and has not restored argv yet. */
  ghost predicate Constructing(phase: Phase) {
    (phase.Extended? || phase.Failed? || phase.Built?) && phase.kind.File? && phase.kind.arg.Some?
  }

  lemma {:induction false} BaseFixed(st: State, ops: seq<Op>)
    requires Inv(st) && Legal(st, ops)
    ensures Run(st, ops).base == st.base
    decreases ops
  {
    hide Inv;
    if ops != [] {
      StepInv(st, ops[0]);
      BaseFixed(Step(st, ops[0]), ops[1..]);
    }
  }

  /** An instance is constructed with the tenant's argv, plus the argument if there is one. */
  lemma {:induction false} BuiltWithArgv(st: State, i: Inst)
    requires Inv(st) && Enabled(st, Build(i))
    ensures i in Step(st, Build(i)).args && ArgvInUse(st.phase.kind, st.base, Step(st, Build(i)).args[i])
  {
    hide RefsOk;
  }

  // ---- Runs put together -------------------------------------------------------------------------------

  ghost predicate Reaches(st: State, ops: seq<Op>, last: State) {
    Inv(st) && Legal(st, ops) && Run(st, ops) == last
  }

  /** A step before a run. */
  lemma {:induction false} Joined(st: State, ops: seq<Op>, last: State)
    requires Inv(st) && ops != [] && Enabled(st, ops[0]) && Inv(Step(st, ops[0]))
    requires (ops[1..] == [] && Step(st, ops[0]) == last) || Reaches(Step(st, ops[0]), ops[1..], last)
    ensures Reaches(st, ops, last)
  {
    hide Inv, Step, Enabled;
    var st1 := Step(st, ops[0]);
    assert Legal(st1, ops[1..]) && Run(st1, ops[1..]) == last;
  }

  /** A run after a run. */
  lemma {:induction false} Continued(st: State, a: seq<Op>, middle: State, b: seq<Op>, last: State)
    requires Reaches(st, a, middle) && Reaches(middle, b, last)
    ensures Reaches(st, a + b, last)
    decreases a
  {
    hide Inv, Step, Enabled;
    if a == [] {
      assert a + b == b;
    } else {
      StepInv(st, a[0]);
      Continued(Step(st, a[0]), a[1..], middle, b, last);
      assert (a + b)[0] == a[0] && (a + b)[1..] == a[1..] + b;
      Joined(st, a + b, last);
    }
  }

  lemma {:induction false} OneStep(st: State, op: Op)
    requires Inv(st) && Enabled(st, op)
    ensures Reaches(st, [op], Step(st, op))
  {
    hide Step, Enabled, Inv;
    StepInv(st, op);
    assert [op][1..] == [];
    Joined(st, [op], Step(st, op));
  }

  // ---- How long an instance lives ----------------------------------------------------------------------

  /** Destroying a script's reference releases the instance exactly if it is the last one. */
  lemma {:induction false} ReleasedByLast(st: State, k: nat)
    requires Inv(st) && Enabled(st, DropRef(k))
    ensures var i := st.tasks[k].inst;
            i in Step(st, DropRef(k)).shared.released <==> Held(st.shared.holders, i) == {Member(k)}
  {
    TaskAlive(st, k);
    var s, i := st.shared, st.tasks[k].inst;
    assert CountOk(s, i);
    assert Member(k) in Held(s.holders, i);
    if s.count[i] == 1 {
      One(Held(s.holders, i), Member(k));
    }
  }

  lemma {:induction false} One(s: set<Holder>, h: Holder)
    requires |s| == 1 && h in s
    ensures s == {h}
  {
    assert |s - {h}| == 0;
    assert s == {h} + (s - {h});
  }

  /**
   The instance can be released before the script is gone: its reference is the member destroyed
   first, and its machine, which shares the instance's memory, the one destroyed last.
   */
  lemma {:induction false} ReleasedBeforeMachine(st: State, k: nat)
    requires Inv(st) && k in st.tasks && st.tasks[k].Active? && Held(st.shared.holders, st.tasks[k].inst) == {Member(k)}
    ensures Legal(st, [RunBody(k), DropRef(k)])
    ensures var st' := Run(st, [RunBody(k), DropRef(k)]);
            k in st'.tasks && st'.tasks[k].RefDropped? && st'.tasks[k].inst in st'.shared.released
  {
    hide Inv, Legal, Run, Held;
    var ops := [RunBody(k), DropRef(k)];
    var st1 := Next(st, ops[0]);
    var st2 := Next(st1, ops[1]);
    ReleasedByLast(st1, k);
    Joined(st1, ops[1..], st2);
    Joined(st, ops, st2);
  }

  /** No exchange takes place, and the script of k is neither given up nor gone. */
  ghost predicate While(ops: seq<Op>, k: nat) {
    Swap !in ops && Abandon(k) !in ops && FreeScript(k) !in ops
  }

  /** A program slot holds the instance. */
  ghost predicate InSlot(holders: map<Holder, Inst>, i: Inst) {
    (Program in holders && holders[Program] == i) || (DebugProgram in holders && holders[DebugProgram] == i)
  }

  /** What one request does until it has dropped its reference. */
  ghost predicate RunsTo(st: State, ops: seq<Op>, st': State, j: nat)
    requires j in st.tasks
  {
    && Reaches(st, ops, st')
    && (forall op | op in ops :: op in [Construct(j), Assign(j), RunBody(j), DropRef(j)])
    && st'.shared.holders == st.shared.holders - {HolderOf(st.tasks[j], j)}
    && st'.tasks == st.tasks[j := RefDropped(st.tasks[j].inst)]
    && st'.shared.count.Keys == st.shared.count.Keys && st'.phase == st.phase
  }

  function Stage(task: Task): nat {
    match task
    case Loaded(_) => 4
    case Constructed(_) => 3
    case Active(_) => 2
    case BodyDone(_) => 1
    case RefDropped(_) => 0
  }

  /** What a request does next. */
  function StageOp(task: Task, j: nat): Op {
    match task
    case Loaded(_) => Construct(j)
    case Constructed(_) => Assign(j)
    case Active(_) => RunBody(j)
    case BodyDone(_) => DropRef(j)
    case RefDropped(_) => FreeScript(j)
  }

  lemma {:induction false} StageEnabled(st: State, j: nat)
    requires Inv(st) && j in st.tasks && !st.tasks[j].RefDropped?
    ensures var op, task := StageOp(st.tasks[j], j), st.tasks[j];
            && Enabled(st, op)
            && var st' := Step(st, op);
               && j in st'.tasks && st'.tasks == st.tasks[j := st'.tasks[j]] && st'.tasks[j].inst == task.inst
               && Stage(st'.tasks[j]) == Stage(task) - 1 && st'.phase == st.phase
  {
    hide Inv;
  }

  lemma {:induction false} StageHolders(st: State, j: nat)
    requires Inv(st) && j in st.tasks && !st.tasks[j].RefDropped? && Enabled(st, StageOp(st.tasks[j], j))
    ensures var st', task := Step(st, StageOp(st.tasks[j], j)), st.tasks[j];
            && j in st'.tasks
            && st'.shared.holders - {HolderOf(st'.tasks[j], j)} == st.shared.holders - {HolderOf(task, j)}
            && (st'.tasks[j].RefDropped? ==> st'.shared.holders == st.shared.holders - {HolderOf(task, j)})
            && st'.shared.count.Keys == st.shared.count.Keys
  {
    assert TaskOk(st.shared.holders, st.tasks, j);
    TaskAlive(st, j);
    hide Inv;
  }

  /** A request that holds a reference can go on until it has dropped it. */
  lemma {:induction false} LetGo(st: State, j: nat) returns (ops: seq<Op>, st': State)
    requires Inv(st) && j in st.tasks && !st.tasks[j].RefDropped?
    ensures RunsTo(st, ops, st', j) && Inv(st')
    decreases Stage(st.tasks[j])
  {
    hide Inv, Step, Enabled, HolderOf;
    var op := StageOp(st.tasks[j], j);
    StageEnabled(st, j);
    StageHolders(st, j);
    var st1 := Next(st, op);
    OneStep(st, op);
    if st1.tasks[j].RefDropped? {
      ops, st' := [op], st1;
    } else {
      var rest;
      rest, st' := LetGo(st1, j);
      ops := [op] + rest;
      Continued(st, [op], st1, rest, st');
    }
  }

  /** If no slot holds the instance, it can be released while the script still exists. */
  lemma {:induction false} ReleaseRun(st: State, k: nat) returns (ops: seq<Op>, last: State)
    requires Inv(st) && k in st.tasks && !st.tasks[k].RefDropped? && !InSlot(st.shared.holders, st.tasks[k].inst)
    ensures Reaches(st, ops, last) && While(ops, k) && st.tasks[k].inst in last.shared.released
    decreases |Held(st.shared.holders, st.tasks[k].inst)|
  {
    hide Inv, Step, Enabled, Reaches;
    var i := st.tasks[k].inst;
    var held := Held(st.shared.holders, i);
    TaskAlive(st, k);
    if h :| h in held && h != HolderOf(st.tasks[k], k) {
      var first, st1 := OtherDrops(st, k, h);
      var rest;
      assert Held(st1.shared.holders, i) == held - {h};
      rest, last := ReleaseRun(st1, k);
      ops := first + rest;
      Continued(st, first, st1, rest, last);
    } else {
      ops, last := LetGo(st, k);
      assert Held(last.shared.holders, i) == {};
      NoneHeld(last, i);
    }
  }

  lemma {:induction false} NoneHeld(st: State, i: Inst)
    requires Inv(st) && i in st.shared.count && Held(st.shared.holders, i) == {}
    ensures i in st.shared.released
  {
    assert CountOk(st.shared, i);
  }

  /** One other holder of the instance drops its reference. */
  lemma {:induction false} OtherDrops(st: State, k: nat, h: Holder) returns (ops: seq<Op>, st': State)
    requires Inv(st) && k in st.tasks && !st.tasks[k].RefDropped? && !InSlot(st.shared.holders, st.tasks[k].inst)
    requires h in st.shared.holders && st.shared.holders[h] == st.tasks[k].inst && h != HolderOf(st.tasks[k], k)
    ensures Reaches(st, ops, st') && Inv(st') && While(ops, k) && st'.shared.holders == st.shared.holders - {h}
    ensures k in st'.tasks && st'.tasks[k] == st.tasks[k]
  {
    UpdatersShare(st, k);
    if h.Local? || h.Member? {
      HolderHasTask(st, h);
      assert h.task != k by {
        HolderHasTask(st, h);
      }
      ops, st' := LetGo(st, h.task);
    } else {
      hide RefsOk;
      ops, st' := [DropOld], Step(st, DropOld);
      OneStep(st, DropOld);
    }
  }

  lemma {:induction false} HolderHasTask(st: State, h: Holder)
    requires Inv(st) && h in st.shared.holders && (h.Local? || h.Member?)
    ensures h.task in st.tasks && !st.tasks[h.task].RefDropped? && h == HolderOf(st.tasks[h.task], h.task)
  {
    assert TaskOk(st.shared.holders, st.tasks, h.task);
  }

  /** What a request and the updater share is in a slot, or has just been taken out of one. */
  lemma {:induction false} UpdatersShare(st: State, k: nat)
    requires Inv(st) && k in st.tasks && !st.tasks[k].RefDropped? && !InSlot(st.shared.holders, st.tasks[k].inst)
    ensures UpdaterInst in st.shared.holders ==> st.shared.holders[UpdaterInst] != st.tasks[k].inst
    ensures UpdaterOld in st.shared.holders ==> st.phase.Swapped?
  {
    TaskAlive(st, k);
    hide RefsOk;
  }

  /**
   Over all runs without an exchange, an instance outlives the script that was forked from it exactly
   if it is in a program slot.
   */
  lemma {:induction false} OutlivesScript(st: State, k: nat)
    requires Inv(st) && k in st.tasks && !st.tasks[k].RefDropped?
    ensures var i := st.tasks[k].inst;
            (forall ops | Legal(st, ops) && While(ops, k) :: i !in Run(st, ops).shared.released)
            <==> InSlot(st.shared.holders, i)
  {
    hide Inv, Legal, Run;
    var i := st.tasks[k].inst;
    if InSlot(st.shared.holders, i) {
      forall ops | Legal(st, ops) && While(ops, k) ensures i !in Run(st, ops).shared.released {
        SlotKeeps(st, ops, i);
      }
    } else {
      var ops, last := ReleaseRun(st, k);
      assert Legal(st, ops) && i in Run(st, ops).shared.released;
    }
  }

  lemma {:induction false} SlotKeeps(st: State, ops: seq<Op>, i: Inst)
    requires Inv(st) && Legal(st, ops) && Swap !in ops && InSlot(st.shared.holders, i)
    ensures i !in Run(st, ops).shared.released
  {
    var slot := if Program in st.shared.holders && st.shared.holders[Program] == i then Program else DebugProgram;
    NoSwapNoChange(st, ops, slot);
    HolderAlive(Run(st, ops).shared, slot);
  }

  // ---- With exchanges ----------------------------------------------------------------------------------

  lemma {:induction false} Fresh(s: set<Inst>) returns (n: Inst)
    ensures forall x | x in s :: x < n
    decreases s
  {
    n := 0;
    if x :| x in s {
      var m := Fresh(s - {x});
      n := if x < m then m else x + 1;
      forall y | y in s ensures y < n {
        assert y == x || y in s - {x};
      }
    }
  }

  /** How many steps the updater has to go at most. */
  function Left(phase: Phase): nat {
    match phase
    case Idle => 0
    case Failed(_, _) => 1
    case Finishing(_, _) => 2
    case Swapped(_, _) => 3
    case Ready(_) => 4
    case Built(_, _) => 5
    case Extended(_, _) => 6
    case Begun(_, _) => 7
  }

  /** The exchange is still to come. */
  predicate WillSwap(phase: Phase) {
    phase.Begun? || phase.Extended? || phase.Built? || phase.Ready?
  }

  ghost predicate Has(holders: map<Holder, Inst>, slot: Holder, i: Inst) {
    slot in holders && holders[slot] == i
  }

  /** From st to st' no slot has come to hold i, and the slot of the update has ceased to. */
  ghost predicate SlotsLose(st: State, st': State, i: Inst, slot: Holder) {
    && (Has(st'.shared.holders, Program, i) ==> Has(st.shared.holders, Program, i))
    && (Has(st'.shared.holders, DebugProgram, i) ==> Has(st.shared.holders, DebugProgram, i))
    && (WillSwap(st.phase) && !WillSwap(st'.phase) ==> !Has(st'.shared.holders, slot, i))
  }

  /** The updater can take a step, which brings it closer to its end. */
  lemma {:induction false} UpdaterGoesOn(st: State, k: nat) returns (op: Op)
    requires Inv(st) && !st.phase.Idle? && k in st.tasks && !st.tasks[k].RefDropped?
    ensures Enabled(st, op) && !op.Abandon? && !op.FreeScript?
    ensures var st' := Step(st, op);
            && st'.tasks == st.tasks && Left(st'.phase) < Left(st.phase)
            && (WillSwap(st.phase) && !WillSwap(st'.phase) ==> op.Swap?)
            && (!st'.phase.Idle? ==> st'.phase.kind == st.phase.kind)
            && SlotsLose(st, st', st.tasks[k].inst, Target(st.phase.kind))
  {
    TaskAlive(st, k);
    var n := Fresh(st.shared.count.Keys);
    op := match st.phase
      case Begun(_, _) => if CanBuild(st.phase) then Build(n) else Extend
      case Extended(_, _) => Build(n)
      case Failed(_, _) => Unwind
      case Built(_, _) => Restore
      case Ready(_) => Swap
      case Swapped(_, _) => DropOld
      case Finishing(_, _) => Finish;
    hide RefsOk, TaskOk;
  }

  /** The updater can go on to its end, while the requests wait. */
  lemma {:induction false} UpdaterEnds(st: State, k: nat) returns (ops: seq<Op>, last: State)
    requires Inv(st) && k in st.tasks && !st.tasks[k].RefDropped?
    ensures Reaches(st, ops, last) && Inv(last) && last.phase.Idle? && last.tasks == st.tasks
    ensures forall op | op in ops :: !op.Abandon? && !op.FreeScript?
    ensures if st.phase.Idle? then last == st else SlotsLose(st, last, st.tasks[k].inst, Target(st.phase.kind))
    decreases Left(st.phase)
  {
    if st.phase.Idle? {
      ops, last := [], st;
    } else {
      var op := UpdaterGoesOn(st, k);
      hide Inv, Step, Enabled, Has;
      var st1 := Next(st, op);
      OneStep(st, op);
      var rest;
      rest, last := UpdaterEnds(st1, k);
      ops := [op] + rest;
      Continued(st, [op], st1, rest, last);
    }
  }

  /** One more update, after which its slot no longer holds the instance of k. */
  lemma {:induction false} UpdateSlot(st: State, k: nat, debug: bool) returns (ops: seq<Op>, last: State)
    requires Inv(st) && k in st.tasks && !st.tasks[k].RefDropped? && st.phase.Idle?
    ensures Reaches(st, ops, last) && Inv(last) && last.phase.Idle? && last.tasks == st.tasks
    ensures forall op | op in ops :: !op.Abandon? && !op.FreeScript?
    ensures var i := st.tasks[k].inst;
            && (Has(last.shared.holders, Program, i) ==> Has(st.shared.holders, Program, i))
            && !Has(last.shared.holders, SlotFor(debug), i)
  {
    var op := Begin(Binary(debug));
    var st1 := Next(st, op);
    OneStep(st, op);
    assert st1.phase == Begun(Binary(debug), st.argv) && st1.tasks == st.tasks && st1.shared == st.shared;
    hide Inv, Step, Enabled, Has, Reaches;
    var rest;
    rest, last := UpdaterEnds(st1, k);
    ops := [op] + rest;
    Continued(st, [op], st1, rest, last);
  }

  /** If exchanges may take place, no instance is sure to outlive a script that was forked from it. */
  lemma {:induction false} NoneIsSure(st: State, k: nat) returns (ops: seq<Op>, last: State)
    requires Inv(st) && k in st.tasks && !st.tasks[k].RefDropped?
    ensures Reaches(st, ops, last) && Abandon(k) !in ops && FreeScript(k) !in ops
    ensures st.tasks[k].inst in last.shared.released
  {
    hide Inv, Reaches;
    var a, st1 := UpdaterEnds(st, k);
    var b, st2 := UpdateSlot(st1, k, false);
    var c, st3 := UpdateSlot(st2, k, true);
    var d;
    d, last := ReleaseRun(st3, k);
    Continued(st2, c, st3, d, last);
    Continued(st1, b, st2, c + d, last);
    Continued(st, a, st1, b + (c + d), last);
    ops := a + (b + (c + d));
  }

  lemma {:induction false} TargetIsSlot(kind: Kind)
    ensures Target(kind) == Program || Target(kind) == DebugProgram
  {
  }

  /** From an idle tenant an instance can be constructed, with any argument. */
  lemma {:induction false} CanConstruct(st: State, kind: Kind, i: Inst) returns (ops: seq<Op>, last: State)
    requires Inv(st) && st.phase.Idle? && i !in st.shared.count
    ensures Reaches(st, ops, last) && Inv(last)
    ensures last.phase == Built(kind, st.base) && last.tasks == st.tasks && last.base == st.base
    ensures UpdaterInst in last.shared.holders && last.shared.holders[UpdaterInst] == i
    ensures i in last.args && ArgvInUse(kind, st.base, last.args[i])
  {
    var st1 := Next(st, Begin(kind));
    OneStep(st, Begin(kind));
    ops, last := [Begin(kind)], st1;
    assert st1.phase == Begun(kind, st.base) && st1.argv == st.base && st1.shared == st.shared;
    hide RefsOk, Reaches;
    if !CanBuild(st1.phase) {
      var st2 := Next(st1, Extend);
      OneStep(st1, Extend);
      Continued(st, ops, st1, [Extend], st2);
      ops, last := ops + [Extend], st2;
    }
    var st3 := Next(last, Build(i));
    OneStep(last, Build(i));
    Continued(st, ops, last, [Build(i)], st3);
    BuiltWithArgv(last, i);
    ops, last := ops + [Build(i)], st3;
  }

  /** An instance that has been constructed can be installed. */
  lemma {:induction false} CanInstall(st: State) returns (ops: seq<Op>, last: State)
    requires Inv(st) && st.phase.Built?
    ensures Reaches(st, ops, last) && Inv(last) && UpdaterInst in st.shared.holders
    ensures last.phase.Idle? && last.report == UpdateSuccessful
    ensures last.tasks == st.tasks && last.base == st.base && last.args == st.args
    ensures Has(last.shared.holders, Target(st.phase.kind), st.shared.holders[UpdaterInst])
  {
    ops := [Restore, Swap, DropOld, Finish];
    var st1 := Next(st, Restore);
    SwapReplaces(st1);
    var st2 := Next(st1, Swap);
    var slot := Target(st.phase.kind);
    TargetIsSlot(st.phase.kind);
    hide Inv, Target, Exchanged;
    assert st2.phase == Swapped(st.phase.kind, true);
    var st3 := Next(st2, DropOld);
    OnlySwapReplaces(st2, DropOld, slot);
    last := Next(st3, Finish);
    OnlySwapReplaces(st3, Finish, slot);
    hide Step, Enabled;
    Joined(st3, ops[3..], last);
    Joined(st2, ops[2..], last);
    Joined(st1, ops[1..], last);
    Joined(st, ops, last);
  }

  /**
   Whenever no update is under way, one of any kind can be carried out for any new instance: it ends up in
   the slot, constructed with the tenant's argv and the argument, and success is reported.
   */
  lemma {:induction false} UpdateInstalls(st: State, kind: Kind, i: Inst) returns (ops: seq<Op>, last: State)
    requires Inv(st) && st.phase.Idle? && i !in st.shared.count
    ensures Reaches(st, ops, last) && last.phase.Idle? && last.tasks == st.tasks && last.report == UpdateSuccessful
    ensures Has(last.shared.holders, Target(kind), i) && last.base == st.base
    ensures i in last.args && ArgvInUse(kind, st.base, last.args[i])
  {
    hide Inv, Reaches, Has, ArgvInUse, Target;
    var a, st1 := CanConstruct(st, kind, i);
    var b;
    b, last := CanInstall(st1);
    Continued(st, a, st1, b, last);
    ops := a + b;
  }

  // ---- What an update reports --------------------------------------------------------------------------

  /** The slot of an update is as it was. */
  ghost predicate SlotKept(st: State, st': State, slot: Holder) {
    && (slot in st'.shared.holders <==> slot in st.shared.holders)
    && (slot in st.shared.holders ==> st'.shared.holders[slot] == st.shared.holders[slot])
  }

  /** The instance is still to be constructed. */
  predicate WillBuild(phase: Phase) {
    phase.Begun? || phase.Extended?
  }

  ghost predicate NoBegin(ops: seq<Op>) {
    forall op | op in ops :: !op.Begin?
  }

  lemma {:induction false} PhaseSteps(st: State, op: Op)
    requires Inv(st) && Enabled(st, op) && !op.Begin?
    ensures var st' := Step(st, op);
            && (WillBuild(st'.phase) ==> WillBuild(st.phase))
            && (op == Throw ==> WillBuild(st.phase) && st'.phase.Failed?)
            && (op == Swap ==> st.phase.Ready? && st'.phase.Swapped?)
            && (st.phase.Failed? ==> st'.phase.Failed? || st'.phase.Idle?)
            && (st.phase.Built? || st.phase.Ready? ==> st'.phase.Built? || st'.phase.Ready? || op == Swap)
            && (WillBuild(st.phase) ==> WillBuild(st'.phase) || st'.phase.Built? || op == Throw)
            && (st.phase.Swapped? || st.phase.Finishing? || st.phase.Idle? ==>
                  st'.phase.Swapped? || st'.phase.Finishing? || st'.phase.Idle?)
            && (WillSwap(st.phase) && !st'.phase.Idle? ==> st'.phase.kind == st.phase.kind)
  {
    hide Inv;
  }

  /** An update comes to its end through an exception in the construction, or through the exchange. */
  lemma {:induction false} ThrowOrSwap(st: State, ops: seq<Op>)
    requires Inv(st) && Legal(st, ops) && NoBegin(ops) && Run(st, ops).phase.Idle?
    ensures Throw in ops ==> WillBuild(st.phase)
    ensures Swap in ops ==> WillSwap(st.phase)
    ensures st.phase.Built? || st.phase.Ready? ==> Swap in ops
    ensures WillBuild(st.phase) ==> (Throw in ops <==> Swap !in ops)
    decreases ops
  {
    hide Inv, Step, Enabled;
    if ops != [] {
      var st1 := Next(st, ops[0]);
      PhaseSteps(st, ops[0]);
      ThrowOrSwap(st1, ops[1..]);
      assert ops == [ops[0]] + ops[1..];
    }
  }

  /** After an exchange, the slot holds another instance than before. */
  lemma {:induction false} SwapChanges(st: State, ops: seq<Op>)
    requires Inv(st) && Legal(st, ops) && NoBegin(ops) && Run(st, ops).phase.Idle?
    requires WillSwap(st.phase) && Swap in ops
    ensures !SlotKept(st, Run(st, ops), Target(st.phase.kind))
    decreases ops
  {
    hide Inv, Step, Enabled, Target;
    var slot := Target(st.phase.kind);
    var st1 := Next(st, ops[0]);
    PhaseSteps(st, ops[0]);
    assert ops == [ops[0]] + ops[1..];
    ThrowOrSwap(st1, ops[1..]);
    if ops[0] == Swap {
      SwapIsNew(st);
      NoSwapNoChange(st1, ops[1..], slot);
    } else {
      TargetIsSlot(st.phase.kind);
      OnlySwapReplaces(st, ops[0], slot);
      SwapChanges(st1, ops[1..]);
    }
  }

  lemma {:induction false} SwapIsNew(st: State)
    requires Inv(st) && Enabled(st, Swap)
    ensures var slot := Target(st.phase.kind);
            && (slot == Program || slot == DebugProgram) && slot in Step(st, Swap).shared.holders
            && (slot in st.shared.holders ==> Step(st, Swap).shared.holders[slot] != st.shared.holders[slot])
  {
    SwapReplaces(st);
    hide RefsOk, Step;
  }

  function ReportFor(ok: bool): Report {
    if ok then UpdateSuccessful else UpdateFailed
  }

  lemma {:induction false} ReportSteps(st: State, op: Op)
    requires Inv(st) && Enabled(st, op) && !op.Begin?
    ensures var st' := Step(st, op);
            && (st.phase.Idle? ==> st'.phase.Idle? && st'.report == st.report)
            && (st.phase.Failed? ==> st'.phase.Failed? || (st'.phase.Idle? && st'.report == UpdateFailed))
            && (op == Swap ==> st'.phase.ok) && (op == FailLate ==> st.phase.Swapped?)
            && (st.phase.Swapped? ==> (st'.phase.Swapped? || st'.phase.Finishing?)
                                      && st'.phase.ok == (st.phase.ok && op != FailLate))
            && (st.phase.Finishing? ==>
                  st'.phase == st.phase || (st'.phase.Idle? && st'.report == ReportFor(st.phase.ok)))
  {
    hide Inv;
  }

  /** What the last part of an update reports. */
  lemma {:induction false} LateReport(st: State, ops: seq<Op>)
    requires Inv(st) && Legal(st, ops) && NoBegin(ops) && Run(st, ops).phase.Idle?
    ensures st.phase.Idle? ==> Run(st, ops).report == st.report && FailLate !in ops
    ensures st.phase.Failed? ==> Run(st, ops).report == UpdateFailed && FailLate !in ops
    ensures st.phase.Finishing? ==> Run(st, ops).report == ReportFor(st.phase.ok) && FailLate !in ops
    ensures st.phase.Swapped? ==> Run(st, ops).report == ReportFor(st.phase.ok && FailLate !in ops)
    decreases ops
  {
    hide Inv, Step, Enabled;
    if ops != [] {
      var st1 := Next(st, ops[0]);
      ReportSteps(st, ops[0]);
      LateReport(st1, ops[1..]);
      assert ops == [ops[0]] + ops[1..];
    }
  }

  lemma {:induction false} ReportOf(st: State, ops: seq<Op>)
    requires Inv(st) && Legal(st, ops) && NoBegin(ops) && Run(st, ops).phase.Idle? && WillSwap(st.phase)
    ensures Run(st, ops).report == ReportFor(Swap in ops && FailLate !in ops)
    decreases ops
  {
    hide Inv, Step, Enabled;
    var st1 := Next(st, ops[0]);
    PhaseSteps(st, ops[0]);
    ReportSteps(st, ops[0]);
    assert ops == [ops[0]] + ops[1..];
    ThrowOrSwap(st1, ops[1..]);
    if WillSwap(st1.phase) {
      ReportOf(st1, ops[1..]);
    } else {
      LateReport(st1, ops[1..]);
    }
  }

  /**
   An update that has reported a failure has left its slot as it was exactly if the construction threw;
   one that has reported success has changed it.
   */
  lemma {:induction false} FailureKeepsSlot(st: State, ops: seq<Op>)
    requires Inv(st) && st.phase.Begun? && Legal(st, ops) && NoBegin(ops) && Run(st, ops).phase.Idle?
    ensures var st' := Run(st, ops);
            && (SlotKept(st, st', Target(st.phase.kind)) <==> Throw in ops)
            && (st'.report == UpdateFailed <==> Throw in ops || FailLate in ops)
            && (st'.report == UpdateSuccessful <==> !(Throw in ops || FailLate in ops))
  {
    hide Inv, Legal, Run, Target;
    ThrowOrSwap(st, ops);
    ReportOf(st, ops);
    if Swap in ops {
      SwapChanges(st, ops);
    } else {
      TargetIsSlot(st.phase.kind);
      NoSwapNoChange(st, ops, Target(st.phase.kind));
    }
  }

  /** One request runs on the tenant's first program. */
  const SERVING :=
    State(Shared(map[Program := 0, Member(0) := 0], map[0 := 2], {}), Idle, map[0 := Active(0)], [], [], map[0 := []],
          NoReport)

  lemma {:induction false} ServingOk()
    ensures Inv(SERVING)
  {
    assert Held(SERVING.shared.holders, 0) == {Program, Member(0)};
    assert CountOk(SERVING.shared, 0);
  }

  /** The same, when the updater is about to exchange the programs. */
  const EXCHANGING :=
    SERVING.(phase := Ready(Binary(false)), args := map[0 := [], 1 := []],
             shared := Shared(map[Program := 0, Member(0) := 0, UpdaterInst := 1], map[0 := 2, 1 := 1], {}))

  lemma {:induction false} UpdateStarts()
    ensures Inv(SERVING) && Inv(EXCHANGING) && Reaches(SERVING, [Begin(Binary(false)), Build(1), Restore], EXCHANGING)
  {
    ServingOk();
    hide Inv, Legal, Run;
    var ops := [Begin(Binary(false)), Build(1), Restore];
    var st1 := Next(SERVING, ops[0]);
    var st2 := Next(st1, ops[1]);
    var st3 := Next(st2, ops[2]);
    assert st3 == EXCHANGING;
    Joined(st2, ops[2..], st3);
    Joined(st1, ops[1..], st3);
    Joined(SERVING, ops, st3);
  }

  /** The same, after the exchange. */
  const EXCHANGED :=
    EXCHANGING.(phase := Swapped(Binary(false), true),
                shared := Acquire(Move(EXCHANGING.shared, Program, UpdaterOld), Program, 1))

  lemma {:induction false} ProgramsExchanged()
    ensures Inv(EXCHANGED) && Reaches(EXCHANGING, [Swap], EXCHANGED)
  {
    UpdateStarts();
    hide Inv, Legal, Run, Acquire, Move;
    var st := Next(EXCHANGING, Swap);
    OneStep(EXCHANGING, Swap);
  }

  const SPOILT := EXCHANGED.(phase := Swapped(Binary(false), false))

  lemma {:induction false} TransferThrows()
    ensures Inv(SPOILT) && Reaches(EXCHANGED, [FailLate], SPOILT)
  {
    ProgramsExchanged();
    hide Inv, Legal, Run;
    var st := Next(EXCHANGED, FailLate);
    OneStep(EXCHANGED, FailLate);
  }

  /** After the exchange the updater drops its references and reports. */
  lemma {:induction false} UpdaterLeaves(from: State) returns (st: State)
    requires Inv(from) && from.phase.Swapped?
    ensures Reaches(from, [DropOld, Finish], st) && st.report == ReportFor(from.phase.ok)
    ensures st.shared.holders == from.shared.holders - {UpdaterOld, UpdaterInst} && st.tasks == from.tasks
  {
    hide Inv, Legal, Run;
    var st1 := Next(from, DropOld);
    st := Next(st1, Finish);
    assert st.shared.holders == from.shared.holders - {UpdaterOld, UpdaterInst};
    hide Step, Enabled, Reaches;
    OneStep(from, DropOld);
    OneStep(st1, Finish);
    Continued(from, [DropOld], st1, [Finish], st);
    assert [DropOld] + [Finish] == [DropOld, Finish];
  }

  lemma {:induction false} RequestKeepsOld()
    ensures EXCHANGED.shared.holders - {UpdaterOld, UpdaterInst} == map[Program := 1, Member(0) := 0]
    ensures EXCHANGED.tasks == map[0 := Active(0)]
  {
  }

  /** After an update, the old program is kept by that request alone. */
  lemma {:induction false} UpdateDuringRequest() returns (st: State)
    ensures Reaches(EXCHANGING, [Swap, DropOld, Finish], st) && st.report == UpdateSuccessful
    ensures st.shared.holders == map[Program := 1, Member(0) := 0] && st.tasks == map[0 := Active(0)]
    ensures Held(st.shared.holders, st.tasks[0].inst) == {Member(0)}
  {
    ProgramsExchanged();
    hide Inv, Reaches;
    st := UpdaterLeaves(EXCHANGED);
    RequestKeepsOld();
    Continued(EXCHANGING, [Swap], EXCHANGED, [DropOld, Finish], st);
    assert [Swap] + [DropOld, Finish] == [Swap, DropOld, Finish];
  }

  /** An update whose state transfer throws reports a failure; but the new program has been installed. */
  lemma {:induction false} FailedButApplied() returns (st: State)
    ensures Reaches(EXCHANGING, [Swap, FailLate, DropOld, Finish], st) && st.report == UpdateFailed
    ensures EXCHANGING.shared.holders[Program] == 0 && st.shared.holders == map[Program := 1, Member(0) := 0]
  {
    ProgramsExchanged();
    TransferThrows();
    hide Inv, Reaches;
    st := UpdaterLeaves(SPOILT);
    RequestKeepsOld();
    Continued(EXCHANGED, [FailLate], SPOILT, [DropOld, Finish], st);
    Continued(EXCHANGING, [Swap], EXCHANGED, [FailLate] + [DropOld, Finish], st);
    assert [Swap] + ([FailLate] + [DropOld, Finish]) == [Swap, FailLate, DropOld, Finish];
  }

  /** The request has dropped its reference, which is not the last one; its script still exists. */
  const DROPPED :=
    SERVING.(tasks := map[0 := RefDropped(0)], shared := Shared(map[Program := 0], map[0 := 1], {}))

  /** The updater has a new instance then. */
  const DROPPED_READY :=
    DROPPED.(phase := Ready(Binary(false)), args := map[0 := [], 1 := []],
             shared := Shared(map[Program := 0, UpdaterInst := 1], map[0 := 1, 1 := 1], {}))

  lemma {:induction false} ReferenceDropped()
    ensures Inv(DROPPED) && Reaches(SERVING, [RunBody(0), DropRef(0)], DROPPED)
  {
    ServingOk();
    hide Inv, Legal, Run;
    var ops := [RunBody(0), DropRef(0)];
    var st1 := Next(SERVING, ops[0]);
    var st2 := Next(st1, ops[1]);
    assert st2.shared.holders == map[Program := 0] && st2.tasks == map[0 := RefDropped(0)];
    assert st2 == DROPPED;
    hide Step, Enabled;
    Joined(st1, ops[1..], st2);
    Joined(SERVING, ops, st2);
  }

  lemma {:induction false} DroppedReady()
    ensures Inv(DROPPED_READY) && Reaches(DROPPED, [Begin(Binary(false)), Build(1), Restore], DROPPED_READY)
  {
    ReferenceDropped();
    hide Inv, Legal, Run;
    var ops := [Begin(Binary(false)), Build(1), Restore];
    var st1 := Next(DROPPED, ops[0]);
    var st2 := Next(st1, ops[1]);
    var st3 := Next(st2, ops[2]);
    assert st3 == DROPPED_READY;
    hide Step, Enabled;
    Joined(st2, ops[2..], st3);
    Joined(st1, ops[1..], st3);
    Joined(DROPPED, ops, st3);
  }

  lemma {:induction false} OldDropped() returns (st: State)
    ensures Reaches(DROPPED_READY, [Swap, DropOld], st) && st.tasks == DROPPED.tasks && 0 in st.shared.released
  {
    DroppedReady();
    hide Inv, Legal, Run;
    var ops := [Swap, DropOld];
    var st1 := Next(DROPPED_READY, ops[0]);
    assert UpdaterOld in st1.shared.holders && st1.shared.holders[UpdaterOld] == 0 && st1.shared.count[0] == 1;
    st := Next(st1, ops[1]);
    assert 0 in st.shared.released && st.tasks == DROPPED.tasks;
    hide Step, Enabled, Reaches;
    Joined(st1, ops[1..], st);
    Joined(DROPPED_READY, ops, st);
  }

  /**
   The updater can release the instance, too: a script drops its reference, which is not the last one,
   and an update takes the program out of its slot before the script is gone.
   */
  lemma {:induction false} ReleasedByUpdate() returns (st: State)
    ensures Inv(SERVING) && SERVING.tasks == map[0 := Active(0)]
    ensures Reaches(SERVING, [RunBody(0), DropRef(0), Begin(Binary(false)), Build(1), Restore, Swap, DropOld], st)
    ensures st.tasks == map[0 := RefDropped(0)] && 0 in st.shared.released
  {
    ServingOk();
    ReferenceDropped();
    DroppedReady();
    st := OldDropped();
    hide Inv, Reaches;
    var a, b, c := [RunBody(0), DropRef(0)], [Begin(Binary(false)), Build(1), Restore], [Swap, DropOld];
    Continued(DROPPED, b, DROPPED_READY, c, st);
    Continued(SERVING, a, DROPPED, b + c, st);
    assert a + (b + c) == [RunBody(0), DropRef(0), Begin(Binary(false)), Build(1), Restore, Swap, DropOld];
  }
}
