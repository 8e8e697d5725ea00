/** The reader/writer lock (kernel/locks.h, kernel/locks.cpp) as a state machine: any number of tasks interleaved at the
    level of single compare-and-swaps, loads and stores.

    An `upgradable_shared_mutex` is three kernel mutexes and a counter. A kernel mutex is one word: taking it is a
    compare-and-swap that succeeds only on a free word, releasing it is a store that frees it whoever owns it. */
module Locks {
  import opened Bytes

  type Task = nat

  /** A kernel mutex: its owner word. */
  datatype Mutex = Unowned | OwnedBy(task: Task)

  datatype Op = Lock | Unlock | LockShared | UnlockShared | Upgrade | Downgrade

  /** Where a task is in `shared_mutex::lock_shared` or `unlock_shared`; `count` is the register between the load and
      the store of `num_shared`. */
  datatype Stage = TakeShared | Load | Store(count: nat) | Exclusive | DropShared

  /** Where a task is. `Reader` and `Writer` are outside the lock's code, holding it. */
  datatype Pc =
    | Idle
    | Reader
    | Writer
    | TakeMeta(op: Op)
    | TakeExclusive(op: Op)
    | DropExclusive(op: Op)
    | Enter(op: Op, stage: Stage)
    | Leave(op: Op, stage: Stage)
    | DropMeta(op: Op)

  /** `version` counts the writes to what the lock protects. */
  datatype State = State(meta: Mutex, shared: Mutex, exclusive: Mutex, num: nat, pcs: seq<Pc>, version: nat)

  /** What a task does next: go on with the call it is in, start one, or write what the lock protects. */
  datatype Action = Run | Call(op: Op) | Write

  /** What a correct client may do: unlock what it holds, write only as the writer. */
  predicate Allowed(pc: Pc, a: Action) {
    match a
    case Run => pc !in {Idle, Reader, Writer}
    case Write => pc == Writer
    case Call(op) =>
      match op
      case Lock => pc == Idle
      case LockShared => pc == Idle
      case UnlockShared => pc == Reader
      case Upgrade => pc == Reader
      case Unlock => pc == Writer
      case Downgrade => pc == Writer
  }

  function Goto(s: State, t: Task, pc: Pc): State
    requires t < |s.pcs|
  {
    s.(pcs := s.pcs[t := pc])
  }

  /** `shared_mutex::lock_shared`, one step. */
  function EnterStep(s: State, t: Task, op: Op, stage: Stage): State
    requires t < |s.pcs|
  {
    match stage
    case TakeShared => if s.shared == Unowned then Goto(s, t, Enter(op, Load)).(shared := OwnedBy(t)) else s
    case Load => Goto(s, t, Enter(op, Store(s.num)))
    case Store(count) =>
      var num := Trunc32(count + 1);
      Goto(s, t, Enter(op, if num == 1 then Exclusive else DropShared)).(num := num)
    case Exclusive =>
      if s.exclusive == Unowned then Goto(s, t, Enter(op, DropShared)).(exclusive := OwnedBy(t)) else s
    case DropShared => Goto(s, t, DropMeta(op)).(shared := Unowned)
  }

  /** `shared_mutex::unlock_shared`, one step. */
  function LeaveStep(s: State, t: Task, op: Op, stage: Stage): State
    requires t < |s.pcs|
  {
    match stage
    case TakeShared => if s.shared == Unowned then Goto(s, t, Leave(op, Load)).(shared := OwnedBy(t)) else s
    case Load => Goto(s, t, Leave(op, Store(s.num)))
    case Store(count) =>
      var num := Trunc32(count - 1);
      Goto(s, t, Leave(op, if num == 0 then Exclusive else DropShared)).(num := num)
    case Exclusive => Goto(s, t, Leave(op, DropShared)).(exclusive := Unowned)
    case DropShared => Goto(s, t, if op == Upgrade then TakeExclusive(op) else Idle).(shared := Unowned)
  }

  /** Where a call goes once it has the meta mutex. */
  function AfterMeta(op: Op): Pc {
    match op
    case LockShared => Enter(op, TakeShared)
    case Upgrade => Leave(op, TakeShared)
    case Downgrade => DropExclusive(op)
    case _ => TakeExclusive(op)
  }

  function Step(s: State, t: Task, a: Action): State
    requires t < |s.pcs|
  {
    match a
    case Write => s.(version := s.version + 1)
    case Call(op) =>
      Goto(s, t, if op == UnlockShared then Leave(op, TakeShared) else if op == Unlock then DropExclusive(op) else TakeMeta(op))
    case Run =>
      match s.pcs[t]
      case TakeMeta(op) => if s.meta == Unowned then Goto(s, t, AfterMeta(op)).(meta := OwnedBy(t)) else s
      case TakeExclusive(op) =>
        if s.exclusive == Unowned then Goto(s, t, DropMeta(op)).(exclusive := OwnedBy(t)) else s
      case DropExclusive(op) => Goto(s, t, if op == Downgrade then Enter(op, TakeShared) else Idle).(exclusive := Unowned)
      case Enter(op, stage) => EnterStep(s, t, op, stage)
      case Leave(op, stage) => LeaveStep(s, t, op, stage)
      case DropMeta(op) => Goto(s, t, if op == Lock || op == Upgrade then Writer else Reader).(meta := Unowned)
      case _ => s
  }

  // ---- runs ----

  ghost predicate Init(s: State) {
    && s.meta == s.shared == s.exclusive == Unowned && s.num == 0
    && |s.pcs| < 0x1_0000_0000 && forall t :: 0 <= t < |s.pcs| ==> s.pcs[t] == Idle
  }

  /** `run[k + 1]` comes from `run[k]` by one allowed action of one task. */
  ghost predicate IsRun(run: seq<State>) {
    && run != [] && Init(run[0])
    && forall k :: 0 <= k < |run| - 1 ==> Stepped(run[k], run[k + 1])
  }

  ghost predicate Stepped(s: State, s': State) {
    exists t: Task, a :: t < |s.pcs| && Allowed(s.pcs[t], a) && s' == Step(s, t, a)
  }

  // ---- the invariant ----

  /** Which calls can be where. */
  predicate Fits(pc: Pc) {
    match pc
    case TakeMeta(op) => op in {Lock, LockShared, Upgrade, Downgrade}
    case DropMeta(op) => op in {Lock, LockShared, Upgrade, Downgrade}
    case TakeExclusive(op) => op in {Lock, Upgrade}
    case DropExclusive(op) => op in {Unlock, Downgrade}
    case Enter(op, _) => op in {LockShared, Downgrade}
    case Leave(op, _) => op in {UnlockShared, Upgrade}
    case _ => true
  }

  predicate HoldsMeta(pc: Pc) {
    match pc
    case TakeExclusive(_) => true
    case DropExclusive(op) => op == Downgrade
    case Enter(_, _) => true
    case Leave(op, _) => op == Upgrade
    case DropMeta(_) => true
    case _ => false
  }

  predicate HoldsShared(pc: Pc) {
    (pc.Enter? || pc.Leave?) && pc.stage != TakeShared
  }

  /** Counted in `num_shared`. */
  predicate Counted(pc: Pc) {
    match pc
    case Reader => true
    case TakeMeta(op) => op == Upgrade
    case Enter(_, stage) => stage == Exclusive || stage == DropShared
    case Leave(_, stage) => stage != Exclusive && stage != DropShared
    case DropMeta(op) => op == LockShared || op == Downgrade
    case _ => false
  }

  /** Has the exclusive mutex for itself. */
  predicate Writing(pc: Pc) {
    match pc
    case Writer => true
    case TakeMeta(op) => op == Downgrade
    case DropExclusive(_) => true
    case DropMeta(op) => op == Lock || op == Upgrade
    case _ => false
  }

  /** First reader, about to take the exclusive mutex for all of them; last reader, about to release it. */
  predicate Opening(pc: Pc) { pc.Enter? && pc.stage == Exclusive }
  predicate Closing(pc: Pc) { pc.Leave? && pc.stage == Exclusive }

  /** Holds the lock, or is changing how it holds it. */
  predicate Protected(pc: Pc) {
    match pc
    case Idle => false
    case Reader => true
    case Writer => true
    case TakeMeta(op) => op == Upgrade || op == Downgrade
    case TakeExclusive(op) => op == Upgrade
    case DropExclusive(op) => op == Downgrade
    case Enter(op, stage) => op == Downgrade || stage == DropShared
    case Leave(op, _) => op == Upgrade
    case DropMeta(_) => true
  }

  ghost function CountedTasks(pcs: seq<Pc>): set<int> {
    set t | 0 <= t < |pcs| && Counted(pcs[t])
  }

  /** Who has the exclusive mutex: one writer, or the readers together, whichever of them took it. */
  datatype Holder = Nobody | Readers | One(task: Task)

  /** The task that is changing the count, if any. */
  function Counting(s: State): Pc {
    if s.shared.OwnedBy? && s.shared.task < |s.pcs| then s.pcs[s.shared.task] else Idle
  }

  /** The readers have the exclusive mutex while they are counted, but for the steps between changing the count and
      taking or releasing it. */
  predicate ReadersHold(s: State) {
    var pc := Counting(s);
    Closing(pc) || (s.num > 0 && !Opening(pc))
  }

  predicate CountingOk(pc: Pc, num: nat) {
    && (pc.Enter? || pc.Leave? ==> pc.stage.Store? ==> pc.stage.count == num)
    && (Opening(pc) ==> num == 1)
    && (Closing(pc) ==> num == 0)
  }

  ghost predicate Global(s: State, h: Holder) {
    && |s.pcs| < 0x1_0000_0000
    && s.num == |CountedTasks(s.pcs)|
    && CountingOk(Counting(s), s.num)
    && (s.exclusive == Unowned <==> h == Nobody)
    && (ReadersHold(s) <==> h == Readers)
  }

  /** Each mutex word names the task that is between taking and releasing it; while a task holds the lock or is changing
      how it holds it, nobody else can write. */
  predicate Local(s: State, h: Holder, t: Task)
    requires t < |s.pcs|
  {
    var pc := s.pcs[t];
    && Fits(pc)
    && (HoldsMeta(pc) <==> s.meta == OwnedBy(t))
    && (HoldsShared(pc) <==> s.shared == OwnedBy(t))
    && (Writing(pc) <==> h == One(t))
    && (Protected(pc) ==> !(h.One? && h.task != t))
  }

  ghost predicate InvWith(s: State, h: Holder) {
    && Global(s, h)
    && (forall t: Task :: t < |s.pcs| ==> Local(s, h, t))
    && (h.One? ==> h.task < |s.pcs|)
    && (s.meta.OwnedBy? ==> s.meta.task < |s.pcs|) && (s.shared.OwnedBy? ==> s.shared.task < |s.pcs|)
  }

  ghost predicate Inv(s: State) {
    exists h :: InvWith(s, h)
  }

  lemma InitInv(s: State)
    requires Init(s)
    ensures Inv(s)
  {
    assert CountedTasks(s.pcs) == {};
    assert InvWith(s, Nobody);
  }

  /** Moving one task changes the number of counted tasks by at most that task. */
  lemma CountedMoves(pcs: seq<Pc>, t: Task, pc: Pc)
    requires t < |pcs|
    ensures var n, m := |CountedTasks(pcs)|, |CountedTasks(pcs[t := pc])|;
      m == n + (if Counted(pc) then 1 else 0) - (if Counted(pcs[t]) then 1 else 0)
    ensures Counted(pcs[t]) ==> |CountedTasks(pcs)| > 0
    ensures if Counted(pcs[t]) then |CountedTasks(pcs)| <= |pcs| else |CountedTasks(pcs)| < |pcs|
  {
    CountedOne(pcs, t);
    CountedOne(pcs[t := pc], t);
    hide CountedTasks, Counted;
    var rest := CountedTasks(pcs) - {t};
    assert CountedTasks(pcs[t := pc]) - {t} == rest by {
      OthersCounted(pcs, t, pc);
    }
    Subset(rest + {t}, |pcs|);
  }

  lemma CountedOne(pcs: seq<Pc>, t: Task)
    requires t < |pcs|
    ensures var rest := CountedTasks(pcs) - {t}; CountedTasks(pcs) == if Counted(pcs[t]) then rest + {t} else rest
    ensures forall x :: x in CountedTasks(pcs) ==> 0 <= x < |pcs|
  {
    hide Counted;
  }

  lemma OthersCounted(pcs: seq<Pc>, t: Task, pc: Pc)
    requires t < |pcs|
    ensures CountedTasks(pcs[t := pc]) - {t} == CountedTasks(pcs) - {t}
  {
    hide Counted;
  }

  lemma {:induction false} Subset(a: set<int>, n: nat)
    requires forall x :: x in a ==> 0 <= x < n
    ensures |a| <= n
  {
    if n > 0 {
      Subset(a - {n - 1}, n - 1);
    } else {
      assert forall x :: x !in a;
      assert a == {};
    }
  }

  lemma NoneCounted(s: State, t: Task)
    requires s.num == |CountedTasks(s.pcs)| && t < |s.pcs| && s.num == 0
    ensures !Counted(s.pcs[t])
  {
    CountedMoves(s.pcs, t, Idle);
  }

  // ---- every step keeps it ----

  /** What the other tasks need of a step of task `t`. */
  lemma OthersKeep(s: State, h: Holder, s': State, h': Holder, t: Task)
    requires InvWith(s, h) && t < |s.pcs| == |s'.pcs|
    requires forall u :: 0 <= u < |s.pcs| && u != t ==> s'.pcs[u] == s.pcs[u]
    requires s'.meta == s.meta || (s.meta in {Unowned, OwnedBy(t)} && s'.meta in {Unowned, OwnedBy(t)})
    requires s'.shared == s.shared || (s.shared in {Unowned, OwnedBy(t)} && s'.shared in {Unowned, OwnedBy(t)})
    requires h' == h || (!h.One? && !h'.One?) || (h in {Nobody, Readers, One(t)} && h' in {Nobody, Readers, One(t)})
    requires h' == One(t) && h != One(t) ==> forall u: Task :: u < |s.pcs| && u != t ==> !Protected(s.pcs[u])
    requires Local(s', h', t)
    ensures forall u: Task :: u < |s.pcs| ==> Local(s', h', u)
  {
    forall u: Task | u < |s.pcs| && u != t ensures Local(s', h', u) {
      assert Local(s, h, u);
    }
  }

  /** A task that has, or can take, the exclusive mutex for itself is alone: nobody else holds the lock. */
  lemma Alone(s: State, h: Holder, t: Task)
    requires InvWith(s, h) && t < |s.pcs|
    requires h == One(t) || (h == Nobody && s.pcs[t].TakeExclusive?)
    ensures forall u: Task :: u < |s.pcs| && u != t ==> !Protected(s.pcs[u])
  {
    assert Local(s, h, t);
    if h == Nobody {
      if s.shared.OwnedBy? {
        assert Local(s, h, s.shared.task);
      }
      assert s.num == 0;
      forall u: Task | u < |s.pcs| && u != t ensures !Protected(s.pcs[u]) {
        assert Local(s, h, u);
        NoneCounted(s, u);
      }
    } else {
      forall u: Task | u < |s.pcs| && u != t ensures !Protected(s.pcs[u]) {
        assert Local(s, h, u);
      }
    }
  }

  lemma CallKeeps(s: State, h: Holder, t: Task, a: Action)
    requires InvWith(s, h) && t < |s.pcs| && Allowed(s.pcs[t], a) && !a.Run?
    ensures InvWith(Step(s, t, a), h)
  {
    assert Local(s, h, t);
    CountedMoves(s.pcs, t, Step(s, t, a).pcs[t]);
    OthersKeep(s, h, Step(s, t, a), h, t);
  }

  lemma MetaKeeps(s: State, h: Holder, t: Task)
    requires InvWith(s, h) && t < |s.pcs| && (s.pcs[t].TakeMeta? || s.pcs[t].DropMeta?)
    ensures InvWith(Step(s, t, Run), h)
  {
    assert Local(s, h, t);
    CountedMoves(s.pcs, t, Step(s, t, Run).pcs[t]);
    OthersKeep(s, h, Step(s, t, Run), h, t);
  }

  lemma ExclusiveKeeps(s: State, h: Holder, t: Task) returns (h': Holder)
    requires InvWith(s, h) && t < |s.pcs| && (s.pcs[t].TakeExclusive? || s.pcs[t].DropExclusive?)
    ensures InvWith(Step(s, t, Run), h')
  {
    assert Local(s, h, t);
    var s' := Step(s, t, Run);
    CountedMoves(s.pcs, t, s'.pcs[t]);
    h' := if s.pcs[t].DropExclusive? then Nobody else if s.exclusive == Unowned then One(t) else h;
    if s.pcs[t].DropExclusive? || h == Nobody {
      Alone(s, h, t);
    }
    if s.shared.OwnedBy? {
      assert Local(s, h, s.shared.task);
    }
    OthersKeep(s, h, s', h', t);
  }

  lemma EnterKeeps(s: State, h: Holder, t: Task) returns (h': Holder)
    requires InvWith(s, h) && t < |s.pcs| && s.pcs[t].Enter?
    ensures InvWith(Step(s, t, Run), h')
  {
    assert Local(s, h, t);
    var s' := Step(s, t, Run);
    CountedMoves(s.pcs, t, s'.pcs[t]);
    h' := if ReadersHold(s') then Readers else if h == Readers then Nobody else h;
    if s.shared.OwnedBy? {
      assert Local(s, h, s.shared.task);
    }
    OthersKeep(s, h, s', h', t);
  }

  lemma LeaveKeeps(s: State, h: Holder, t: Task) returns (h': Holder)
    requires InvWith(s, h) && t < |s.pcs| && s.pcs[t].Leave?
    ensures InvWith(Step(s, t, Run), h')
  {
    assert Local(s, h, t);
    var s' := Step(s, t, Run);
    CountedMoves(s.pcs, t, s'.pcs[t]);
    h' := if ReadersHold(s') then Readers else if h == Readers then Nobody else h;
    if s.shared.OwnedBy? {
      assert Local(s, h, s.shared.task);
    }
    OthersKeep(s, h, s', h', t);
  }

  lemma StepKeeps(s: State, t: Task, a: Action)
    requires Inv(s) && t < |s.pcs| && Allowed(s.pcs[t], a)
    ensures Inv(Step(s, t, a))
  {
    var h :| InvWith(s, h);
    var h' := h;
    if !a.Run? {
      CallKeeps(s, h, t, a);
    } else {
      match s.pcs[t] {
        case TakeMeta(_) => MetaKeeps(s, h, t);
        case DropMeta(_) => MetaKeeps(s, h, t);
        case Enter(_, _) => h' := EnterKeeps(s, h, t);
        case Leave(_, _) => h' := LeaveKeeps(s, h, t);
        case _ => h' := ExclusiveKeeps(s, h, t);
      }
    }
    assert InvWith(Step(s, t, a), h');
  }

  lemma {:induction false} RunInv(run: seq<State>, k: nat)
    requires IsRun(run) && k < |run|
    ensures Inv(run[k]) && |run[k].pcs| == |run[0].pcs|
  {
    if k == 0 {
      InitInv(run[0]);
    } else {
      RunInv(run, k - 1);
      assert Stepped(run[k - 1], run[k]);
      var t: Task, a :| t < |run[k - 1].pcs| && Allowed(run[k - 1].pcs[t], a) && run[k] == Step(run[k - 1], t, a);
      StepKeeps(run[k - 1], t, a);
      StepSize(run[k - 1], t, a);
    }
  }

  lemma StepSize(s: State, t: Task, a: Action)
    requires t < |s.pcs|
    ensures |Step(s, t, a).pcs| == |s.pcs|
    ensures forall u :: 0 <= u < |s.pcs| && u != t ==> Step(s, t, a).pcs[u] == s.pcs[u]
    ensures Step(s, t, a).version != s.version ==> a == Write
    ensures a == Write && Allowed(s.pcs[t], a) ==> s.pcs[t] == Writer
  {
  }

  // ---- what the lock promises ----

  /** In every state of every run a writer is alone: no second writer, no reader, nobody half-way through an upgrade or
      a downgrade. */
  lemma WriterIsAlone(run: seq<State>, k: nat, t: Task, u: Task)
    requires IsRun(run) && k < |run| && t < |run[k].pcs| && u < |run[k].pcs| && t != u
    requires run[k].pcs[t] == Writer
    ensures !Protected(run[k].pcs[u]) && run[k].pcs[u] != Reader && run[k].pcs[u] != Writer
  {
    RunInv(run, k);
    var h :| InvWith(run[k], h);
    assert Local(run[k], h, t) && Local(run[k], h, u);
  }

  function At(s: State, t: Task): Pc {
    if t < |s.pcs| then s.pcs[t] else Idle
  }

  /** The step from `s` to `s'` is a write by task `t`. */
  ghost predicate Writes(s: State, s': State, t: Task) {
    t < |s.pcs| && Allowed(s.pcs[t], Write) && s' == Step(s, t, Write)
  }

  /** From the moment a task has the lock until it gives it up, through any upgrade and downgrade in between, what the
      lock protects changes only by that task's own writes. */
  lemma {:induction false} HeldDataIsStable(run: seq<State>, i: nat, j: nat, t: Task)
    requires IsRun(run) && i <= j < |run|
    requires forall k :: i <= k < j ==> Protected(At(run[k], t)) && !Writes(run[k], run[k + 1], t)
    ensures run[j].version == run[i].version
  {
    hide Step, Inv, Init, HoldsMeta, HoldsShared, Fits;
    if i < j {
      HeldDataIsStable(run, i, j - 1, t);
      var s := run[j - 1];
      assert Protected(At(s, t)) && !Writes(s, run[j], t);
      assert Stepped(s, run[j]);
      var u: Task, a :| u < |s.pcs| && Allowed(s.pcs[u], a) && run[j] == Step(s, u, a);
      StepSize(s, u, a);
      if a == Write && u != t {
        WriterIsAlone(run, j - 1, u, t);
      }
    }
  }

  /** When no task holds the lock or is in a call, every word is free and the count is zero. */
  lemma QuietIsFree(run: seq<State>, k: nat)
    requires IsRun(run) && k < |run| && forall t :: 0 <= t < |run[k].pcs| ==> run[k].pcs[t] == Idle
    ensures run[k] == run[0].(version := run[k].version, pcs := run[k].pcs)
  {
    RunInv(run, k);
    var s := run[k];
    var h :| InvWith(s, h);
    assert CountedTasks(s.pcs) == {};
    forall t: Task | t < |s.pcs| ensures s.meta != OwnedBy(t) && s.shared != OwnedBy(t) && h != One(t) {
      assert Local(s, h, t);
    }
  }

  /** A task that has the meta mutex and waits for the exclusive one, and a reader who waits to upgrade: they wait for each
      other from then on, whatever the others do. */
  ghost predicate Stuck(s: State, t: Task, u: Task) {
    t < |s.pcs| && u < |s.pcs| && s.pcs[t].TakeExclusive? && s.pcs[u] == TakeMeta(Upgrade)
  }

  lemma {:induction false} UpgradersStuck(run: seq<State>, i: nat, j: nat, t: Task, u: Task)
    requires IsRun(run) && i <= j < |run| && Stuck(run[i], t, u)
    ensures Stuck(run[j], t, u) && At(run[j], t) == At(run[i], t)
  {
    hide Step, Inv, Init, Jam;
    if i < j {
      UpgradersStuck(run, i, j - 1, t, u);
      var s := run[j - 1];
      RunInv(run, j - 1);
      assert Stepped(s, run[j]);
      var w: Task, a :| w < |s.pcs| && Allowed(s.pcs[w], a) && run[j] == Step(s, w, a);
      StuckIsJam(s, t, u);
      JamStep(s, t, u, w, a);
    }
  }

  // ---- where an upgrade and a downgrade can get to ----

  /** One step of one task. */
  datatype Move = Move(task: Task, action: Action)

  predicate CanMove(s: State, m: Move) {
    m.task < |s.pcs| && Allowed(s.pcs[m.task], m.action)
  }

  predicate Leads(s: State, u: State, moves: seq<Move>)
    decreases |moves|
  {
    if moves == [] then u == s
    else CanMove(s, moves[0]) && Leads(Step(s, moves[0].task, moves[0].action), u, moves[1..])
  }

  ghost predicate CanReach(s: State, u: State) {
    exists moves :: Leads(s, u, moves)
  }

  lemma {:induction false} LeadsThen(s: State, u: State, v: State, a: seq<Move>, b: seq<Move>)
    requires Leads(s, u, a) && Leads(u, v, b)
    ensures Leads(s, v, a + b)
    decreases |a|
  {
    hide Step, Allowed;
    if a == [] {
      assert a + b == b;
    } else {
      LeadsThen(Step(s, a[0].task, a[0].action), u, v, a[1..], b);
      assert (a + b)[1..] == a[1..] + b;
    }
  }

  lemma ReachMore(s: State, u: State, v: State)
    requires CanReach(s, u) && CanReach(u, v)
    ensures CanReach(s, v)
  {
    var a :| Leads(s, u, a);
    var b :| Leads(u, v, b);
    LeadsThen(s, u, v, a, b);
  }

  lemma ReachSelf(s: State)
    ensures CanReach(s, s)
  {
    assert Leads(s, s, []);
  }

  /** One more move. */
  lemma ReachNext(s: State, u: State, t: Task, a: Action)
    requires CanReach(s, u) && CanMove(u, Move(t, a))
    ensures CanReach(s, Step(u, t, a))
  {
    var v := Step(u, t, a);
    assert Leads(v, v, []);
    assert [Move(t, a)][1..] == [];
    assert Leads(u, v, [Move(t, a)]);
    ReachMore(s, u, v);
  }

  /** What a run can be continued to is the end of a run. */
  lemma {:induction false} ReachIsRun(run: seq<State>, u: State, moves: seq<Move>) returns (longer: seq<State>)
    requires IsRun(run) && Leads(run[|run| - 1], u, moves)
    ensures IsRun(longer) && longer[0] == run[0] && longer[|longer| - 1] == u
    decreases |moves|
  {
    hide Step, Allowed, Init;
    if moves == [] {
      longer := run;
    } else {
      var s := run[|run| - 1];
      var next := Step(s, moves[0].task, moves[0].action);
      assert Stepped(s, next);
      longer := ReachIsRun(run + [next], u, moves[1..]);
    }
  }

  /** The first reader gets the lock. */
  lemma FirstReader(s: State, t: Task)
    requires s.meta == s.shared == s.exclusive == Unowned && s.num == 0 && t < |s.pcs| && s.pcs[t] == Idle
    ensures CanReach(s, s.(num := 1, exclusive := OwnedBy(t), pcs := s.pcs[t := Reader]))
  {
    hide CanReach;
    ReachSelf(s);
    ReachNext(s, s, t, Call(LockShared));
    var a := Goto(s, t, TakeMeta(LockShared));
    ReachNext(s, a, t, Run);
    var b := Goto(s, t, Enter(LockShared, TakeShared)).(meta := OwnedBy(t));
    assert Step(a, t, Run) == b;
    TakeCount(s, b, t);
    var c := Goto(b, t, Enter(LockShared, Store(0))).(shared := OwnedBy(t));
    ReachNext(s, c, t, Run);
    var d := Goto(c, t, Enter(LockShared, Exclusive)).(num := 1);
    assert Step(c, t, Run) == d;
    ReachNext(s, d, t, Run);
    var e := Goto(d, t, Enter(LockShared, DropShared)).(exclusive := OwnedBy(t));
    assert Step(d, t, Run) == e;
    LeaveLockShared(s, e, t);
    assert Goto(e, t, Reader).(shared := Unowned, meta := Unowned)
        == s.(num := 1, exclusive := OwnedBy(t), pcs := s.pcs[t := Reader]);
  }

  /** Into the counting part of `lock_shared`. */
  lemma TakeCount(s: State, b: State, t: Task)
    requires CanReach(s, b) && t < |b.pcs| && b.pcs[t] == Enter(LockShared, TakeShared) && b.shared == Unowned
    ensures CanReach(s, Goto(b, t, Enter(LockShared, Store(b.num))).(shared := OwnedBy(t)))
  {
    hide CanReach;
    ReachNext(s, b, t, Run);
    var c := Step(b, t, Run);
    ReachNext(s, c, t, Run);
    assert Step(c, t, Run) == Goto(b, t, Enter(LockShared, Store(b.num))).(shared := OwnedBy(t));
  }

  /** And out of `lock_shared`. */
  lemma LeaveLockShared(s: State, e: State, t: Task)
    requires CanReach(s, e) && t < |e.pcs| && e.pcs[t] == Enter(LockShared, DropShared)
    ensures CanReach(s, Goto(e, t, Reader).(shared := Unowned, meta := Unowned))
  {
    hide CanReach;
    ReachNext(s, e, t, Run);
    var f := Step(e, t, Run);
    ReachNext(s, f, t, Run);
    assert Step(f, t, Run) == Goto(e, t, Reader).(shared := Unowned, meta := Unowned);
  }

  /** A second one. */
  lemma SecondReader(s: State, t: Task)
    requires s.meta == s.shared == Unowned && s.num == 1 && t < |s.pcs| && s.pcs[t] == Idle
    ensures CanReach(s, s.(num := 2, pcs := s.pcs[t := Reader]))
  {
    hide CanReach;
    ReachSelf(s);
    ReachNext(s, s, t, Call(LockShared));
    var a := Goto(s, t, TakeMeta(LockShared));
    ReachNext(s, a, t, Run);
    var b := Goto(s, t, Enter(LockShared, TakeShared)).(meta := OwnedBy(t));
    assert Step(a, t, Run) == b;
    TakeCount(s, b, t);
    var c := Goto(b, t, Enter(LockShared, Store(1))).(shared := OwnedBy(t));
    ReachNext(s, c, t, Run);
    var d := Goto(c, t, Enter(LockShared, DropShared)).(num := 2);
    assert Step(c, t, Run) == d;
    LeaveLockShared(s, d, t);
    assert Goto(d, t, Reader).(shared := Unowned, meta := Unowned) == s.(num := 2, pcs := s.pcs[t := Reader]);
  }

  /** Both start to upgrade, and the first gets as far as the exclusive mutex. */
  lemma BothUpgrade(s: State, t: Task, u: Task) returns (v: State)
    requires s.meta == s.shared == Unowned && s.num == 2 && t < |s.pcs| && u < |s.pcs| && t != u
    requires s.pcs[t] == Reader && s.pcs[u] == Reader
    ensures CanReach(s, v) && Stuck(v, t, u) && v.pcs[t] == TakeExclusive(Upgrade)
  {
    hide CanReach;
    ReachSelf(s);
    ReachNext(s, s, t, Call(Upgrade));
    var a := Goto(s, t, TakeMeta(Upgrade));
    ReachNext(s, a, u, Call(Upgrade));
    var b := Goto(a, u, TakeMeta(Upgrade));
    ReachNext(s, b, t, Run);
    var c := Goto(b, t, Leave(Upgrade, TakeShared)).(meta := OwnedBy(t));
    assert Step(b, t, Run) == c;
    ReachNext(s, c, t, Run);
    var d := Goto(c, t, Leave(Upgrade, Load)).(shared := OwnedBy(t));
    ReachNext(s, d, t, Run);
    var e := Goto(d, t, Leave(Upgrade, Store(2)));
    assert Step(d, t, Run) == e;
    ReachNext(s, e, t, Run);
    var f := Goto(e, t, Leave(Upgrade, DropShared)).(num := 1);
    assert Step(e, t, Run) == f;
    ReachNext(s, f, t, Run);
    v := Step(f, t, Run);
  }

  /** From any start with two tasks or more, a run gets stuck. */
  lemma StuckReached(s: State) returns (run: seq<State>)
    requires Init(s) && |s.pcs| >= 2
    ensures IsRun(run) && run[0] == s && Stuck(run[|run| - 1], 0, 1) && run[|run| - 1].pcs[0] == TakeExclusive(Upgrade)
  {
    hide Step;
    FirstReader(s, 0);
    var a := s.(num := 1, exclusive := OwnedBy(0), pcs := s.pcs[0 := Reader]);
    SecondReader(a, 1);
    var b := a.(num := 2, pcs := a.pcs[1 := Reader]);
    var v := BothUpgrade(b, 0, 1);
    ReachMore(s, a, b);
    ReachMore(s, b, v);
    run := RunTo(s, v);
  }

  /** So it does when there is one reader, and a writer that waits for it: the reader must not upgrade. */
  lemma LockStuckReached(s: State) returns (run: seq<State>)
    requires Init(s) && |s.pcs| >= 2
    ensures IsRun(run) && run[0] == s && Stuck(run[|run| - 1], 0, 1)
    ensures run[|run| - 1].pcs == s.pcs[0 := TakeExclusive(Lock)][1 := TakeMeta(Upgrade)]
  {
    hide CanReach;
    FirstReader(s, 1);
    var a := s.(num := 1, exclusive := OwnedBy(1), pcs := s.pcs[1 := Reader]);
    ReachNext(s, a, 0, Call(Lock));
    var b := Goto(a, 0, TakeMeta(Lock));
    ReachNext(s, b, 0, Run);
    var c := Goto(b, 0, TakeExclusive(Lock)).(meta := OwnedBy(0));
    assert Step(b, 0, Run) == c;
    ReachNext(s, c, 1, Call(Upgrade));
    run := RunTo(s, Goto(c, 1, TakeMeta(Upgrade)));
    assert run[|run| - 1].pcs == s.pcs[0 := TakeExclusive(Lock)][1 := TakeMeta(Upgrade)];
  }

  lemma RunTo(s: State, v: State) returns (run: seq<State>)
    requires Init(s) && CanReach(s, v)
    ensures IsRun(run) && run[0] == s && run[|run| - 1] == v
  {
    hide Step;
    var moves :| Leads(s, v, moves);
    run := ReachIsRun([s], v, moves);
  }

  /** Task `t` can still get to hold the lock in this way. */
  ghost predicate CanGet(s: State, t: Task, pc: Pc) {
    exists u :: CanReach(s, u) && t < |u.pcs| && u.pcs[t] == pc
  }

  /** Anywhere in `upgrade` before it has the exclusive mutex. */
  predicate Upgrading(pc: Pc) {
    pc == TakeMeta(Upgrade) || (pc.Leave? && pc.op == Upgrade) || pc == TakeExclusive(Upgrade)
  }

  /** Task `t` upgrades; no other does, and none waits for the exclusive mutex in `lock`. */
  ghost predicate LoneUpgrade(s: State, t: Task) {
    && t < |s.pcs| && Upgrading(s.pcs[t])
    && forall u :: 0 <= u < |s.pcs| && u != t ==> !Upgrading(s.pcs[u]) && s.pcs[u] != TakeExclusive(Lock)
  }

  /** Wherever it is, an upgrade can be completed exactly when no other task upgrades and none waits for the exclusive mutex
      in `lock`. */
  lemma UpgradeFinishesIff(run: seq<State>, k: nat, t: Task)
    requires IsRun(run) && k < |run| && t < |run[k].pcs| && Upgrading(run[k].pcs[t])
    ensures CanGet(run[k], t, Writer) <==>
      forall u :: 0 <= u < |run[k].pcs| && u != t ==> !Upgrading(run[k].pcs[u]) && run[k].pcs[u] != TakeExclusive(Lock)
  {
    hide Step, IsRun, Inv, Jam;
    var s := run[k];
    RunInv(run, k);
    if LoneUpgrade(s, t) {
      FinishUpgrade(s, t);
    } else if CanGet(s, t, Writer) {
      var v :| CanReach(s, v) && t < |v.pcs| && v.pcs[t] == Writer;
      var moves :| Leads(s, v, moves);
      var u: Task :| u < |s.pcs| && u != t && (Upgrading(s.pcs[u]) || s.pcs[u] == TakeExclusive(Lock));
      InTheWay(s, t, u);
      JamStays(s, t, u, v, moves);
      JamIsFar(v, t, u);
    }
  }

  /** Task `u` waits to upgrade, and task `t` has, or also waits for, the meta mutex for something that needs the exclusive
      one. */
  predicate Jam(s: State, t: Task, u: Task) {
    && t < |s.pcs| && u < |s.pcs| && t != u && s.pcs[u] == TakeMeta(Upgrade)
    && (Upgrading(s.pcs[t]) || s.pcs[t].TakeExclusive?)
  }

  lemma StuckIsJam(s: State, t: Task, u: Task)
    ensures Stuck(s, t, u) ==> Jam(s, t, u)
    ensures Jam(s, t, u) && s.pcs[t].TakeExclusive? ==> Stuck(s, t, u)
  {
  }

  lemma JamIsFar(s: State, t: Task, u: Task)
    requires Jam(s, t, u) || Jam(s, u, t)
    ensures s.pcs[t] != Writer && s.pcs[u] != Writer
  {
  }

  /** Only one of them can have the meta mutex. */
  lemma InTheWay(s: State, t: Task, u: Task)
    requires Inv(s) && t < |s.pcs| && u < |s.pcs| && t != u && Upgrading(s.pcs[t])
    requires Upgrading(s.pcs[u]) || s.pcs[u] == TakeExclusive(Lock)
    ensures Jam(s, t, u) || Jam(s, u, t)
  {
    var h :| InvWith(s, h);
    assert Local(s, h, t) && Local(s, h, u);
  }

  /** The step of any task leaves them so, and leaves them where they are once one waits for the exclusive mutex. */
  lemma JamStep(s: State, t: Task, u: Task, w: Task, a: Action)
    requires Inv(s) && Jam(s, t, u) && w < |s.pcs| && Allowed(s.pcs[w], a)
    ensures Jam(Step(s, w, a), t, u) || Jam(Step(s, w, a), u, t)
    ensures s.pcs[t].TakeExclusive? ==> Stuck(Step(s, w, a), t, u) && Step(s, w, a).pcs[t] == s.pcs[t]
  {
    hide CountedTasks, Trunc32, Global, Step;
    var h :| InvWith(s, h);
    StepSize(s, w, a);
    assert Local(s, h, t) && Local(s, h, u);
    if w == t {
      FirstStep(s, h, t, u, a);
    } else if w == u {
      SecondStep(s, t, u, a);
    }
  }

  lemma FirstStep(s: State, h: Holder, t: Task, u: Task, a: Action)
    requires InvWith(s, h) && Jam(s, t, u) && Allowed(s.pcs[t], a)
    ensures Jam(Step(s, t, a), t, u) && (s.pcs[t].TakeExclusive? ==> Step(s, t, a) == s)
  {
    hide CountedTasks, Trunc32, Global;
    assert Local(s, h, t);
    if s.pcs[t].TakeExclusive? {
      ReadersHave(s, h, t, u);
    }
  }

  lemma SecondStep(s: State, t: Task, u: Task, a: Action)
    requires Jam(s, t, u) && Allowed(s.pcs[u], a)
    ensures Step(s, u, a) == if s.meta == Unowned then Goto(s, u, Leave(Upgrade, TakeShared)).(meta := OwnedBy(u)) else s
  {
  }

  /** A reader who waits to upgrade keeps the exclusive mutex taken. */
  lemma ReadersHave(s: State, h: Holder, t: Task, u: Task)
    requires InvWith(s, h) && t < |s.pcs| && u < |s.pcs| && s.pcs[t].TakeExclusive? && s.pcs[u] == TakeMeta(Upgrade)
    ensures s.exclusive != Unowned
  {
    hide CountedTasks;
    assert Local(s, h, t) && Local(s, h, u);
    if s.shared.OwnedBy? {
      assert Local(s, h, s.shared.task);
    }
    CountedMoves(s.pcs, u, Idle);
  }

  lemma {:induction false} JamStays(s: State, t: Task, u: Task, v: State, moves: seq<Move>)
    requires Inv(s) && (Jam(s, t, u) || Jam(s, u, t)) && Leads(s, v, moves)
    ensures Jam(v, t, u) || Jam(v, u, t)
    decreases |moves|
  {
    hide Step, Inv, Jam;
    if moves != [] {
      var m := moves[0];
      if Jam(s, t, u) {
        JamStep(s, t, u, m.task, m.action);
      } else {
        JamStep(s, u, t, m.task, m.action);
      }
      StepKeeps(s, m.task, m.action);
      JamStays(Step(s, m.task, m.action), t, u, v, moves[1..]);
    }
  }

  /** How many steps a task is from being idle, if it starts nothing but to unlock. */
  function Weight(pc: Pc): nat {
    match pc
    case Idle => 0
    case Reader => 6
    case Writer => 2
    case TakeMeta(op) => (match op case Downgrade => 14 case LockShared => 13 case Upgrade => 10 case _ => 5)
    case TakeExclusive(_) => 4
    case DropExclusive(op) => if op == Downgrade then 13 else 1
    case Enter(_, stage) =>
      (match stage case TakeShared => 12 case Load => 11 case Store(_) => 10 case Exclusive => 9 case DropShared => 8)
    case Leave(op, stage) =>
      (if op == Upgrade then 4 else 0)
      + (match stage case TakeShared => 5 case Load => 4 case Store(_) => 3 case Exclusive => 2 case DropShared => 1)
    case DropMeta(op) => if op in {LockShared, Downgrade} then 7 else 3
  }

  function Weights(pcs: seq<Pc>): nat {
    if pcs == [] then 0 else Weights(pcs[..|pcs| - 1]) + Weight(pcs[|pcs| - 1])
  }

  lemma {:induction false} WeightsMove(pcs: seq<Pc>, t: Task, pc: Pc)
    requires t < |pcs|
    ensures Weights(pcs[t := pc]) == Weights(pcs) - Weight(pcs[t]) + Weight(pc)
  {
    hide Weight;
    var n := |pcs| - 1;
    if t < n {
      WeightsMove(pcs[..n], t, pc);
      assert pcs[t := pc][..n] == pcs[..n][t := pc];
    } else {
      assert pcs[t := pc][..n] == pcs[..n];
    }
  }

  /** A move that brings its task nearer to being idle: it starts to unlock, or its call goes on. */
  ghost predicate Nearer(s: State, m: Move) {
    && m.task < |s.pcs| && Fits(s.pcs[m.task])
    && match s.pcs[m.task]
       case Idle => false
       case Reader => m.action == Call(UnlockShared)
       case Writer => m.action == Call(Unlock)
       case TakeMeta(_) => m.action == Run && s.meta == Unowned
       case TakeExclusive(_) => m.action == Run && s.exclusive == Unowned
       case Enter(_, stage) =>
         m.action == Run && (stage == TakeShared ==> s.shared == Unowned) && (stage == Exclusive ==> s.exclusive == Unowned)
       case Leave(_, stage) => m.action == Run && (stage == TakeShared ==> s.shared == Unowned)
       case _ => m.action == Run
  }

  lemma NearerHelps(s: State, m: Move)
    requires Nearer(s, m)
    ensures CanMove(s, m) && Weights(Step(s, m.task, m.action).pcs) < Weights(s.pcs)
  {
    hide Trunc32, Weights;
    WeightsMove(s.pcs, m.task, Step(s, m.task, m.action).pcs[m.task]);
  }

  lemma LoneStays(s: State, t: Task, m: Move)
    requires LoneUpgrade(s, t) && Nearer(s, m) && (m.task == t ==> !s.pcs[t].TakeExclusive?)
    requires m.task != t ==> !s.pcs[m.task].TakeMeta?
    ensures LoneUpgrade(Step(s, m.task, m.action), t)
  {
    hide Trunc32;
  }

  /** Whoever is changing the count without the meta mutex can go on. */
  lemma SharedGoesOn(s: State, h: Holder) returns (m: Move)
    requires InvWith(s, h) && s.shared.OwnedBy? && !HoldsMeta(s.pcs[s.shared.task])
    ensures m.task == s.shared.task && Nearer(s, m) && s.pcs[m.task].Leave?
  {
    m := Move(s.shared.task, Run);
    assert Local(s, h, m.task);
  }

  /** Until the exclusive mutex is free for it, some task can come nearer. */
  lemma NextMove(s: State, t: Task) returns (m: Move)
    requires Inv(s) && LoneUpgrade(s, t) && !(s.pcs[t] == TakeExclusive(Upgrade) && s.exclusive == Unowned)
    ensures Nearer(s, m) && (m.task == t ==> !s.pcs[t].TakeExclusive?) && (m.task != t ==> !s.pcs[m.task].TakeMeta?)
  {
    hide CountedTasks, Global;
    var h :| InvWith(s, h);
    assert Local(s, h, t);
    if s.shared.OwnedBy? && !HoldsMeta(s.pcs[s.shared.task]) {
      m := SharedGoesOn(s, h);
    } else if s.pcs[t] == TakeMeta(Upgrade) {
      m := Move(if s.meta.OwnedBy? then s.meta.task else t, Run);
      if m.task != t {
        assert Local(s, h, m.task);
        NoOpening(s, h, t, m.task);
        SharedInMeta(s, h, m.task);
      }
    } else if s.pcs[t].Leave? {
      SharedInMeta(s, h, t);
      m := Move(t, Run);
    } else if v: Task :| v < |s.pcs| && s.pcs[v] == Leave(UnlockShared, TakeShared) {
      m := Move(v, Run);
      SharedInMeta(s, h, t);
    } else if v: Task :| v < |s.pcs| && s.pcs[v] == Reader {
      m := Move(v, Call(UnlockShared));
    } else {
      SharedInMeta(s, h, t);
      NobodyLeft(s, h, t);
      assert false;
    }
  }

  /** If the one who changes the count has the meta mutex, it is this task. */
  lemma SharedInMeta(s: State, h: Holder, t: Task)
    requires InvWith(s, h) && t < |s.pcs| && HoldsMeta(s.pcs[t])
    requires s.shared.OwnedBy? ==> HoldsMeta(s.pcs[s.shared.task])
    ensures s.shared.OwnedBy? ==> s.shared.task == t
    ensures s.shared.OwnedBy? <==> HoldsShared(s.pcs[t])
  {
    assert Local(s, h, t);
    if s.shared.OwnedBy? {
      assert Local(s, h, s.shared.task);
    }
  }

  /** Nobody is the first reader, or has the lock for itself, while `t` is counted. */
  lemma NoOpening(s: State, h: Holder, t: Task, u: Task)
    requires InvWith(s, h) && t < |s.pcs| && u < |s.pcs| && t != u && s.pcs[t] == TakeMeta(Upgrade)
    ensures !Opening(s.pcs[u]) && !Writing(s.pcs[u])
  {
    assert Local(s, h, t) && Local(s, h, u);
    CountedMoves(s.pcs, t, Idle);
    CountedMoves(s.pcs[t := Idle], u, Idle);
  }

  lemma NobodyLeft(s: State, h: Holder, t: Task)
    requires InvWith(s, h) && LoneUpgrade(s, t) && s.pcs[t] == TakeExclusive(Upgrade) && s.shared == Unowned
    requires forall u :: 0 <= u < |s.pcs| ==> s.pcs[u] != Leave(UnlockShared, TakeShared) && s.pcs[u] != Reader
    ensures s.exclusive == Unowned
  {
    assert Local(s, h, t);
    forall u: Task | u < |s.pcs| ensures !Counted(s.pcs[u]) && h != One(u) {
      assert Local(s, h, u);
    }
    assert CountedTasks(s.pcs) == {};
  }

  /** Who has the meta mutex goes on, the other readers leave one after the other, and the upgrade completes. */
  lemma {:induction false} FinishUpgrade(s: State, t: Task)
    requires Inv(s) && LoneUpgrade(s, t)
    ensures CanGet(s, t, Writer)
    decreases Weights(s.pcs)
  {
    hide Inv, CanReach, Weights, Nearer;
    ReachSelf(s);
    if s.pcs[t] == TakeExclusive(Upgrade) && s.exclusive == Unowned {
      ReachNext(s, s, t, Run);
      var a := Goto(s, t, DropMeta(Upgrade)).(exclusive := OwnedBy(t));
      ReachNext(s, a, t, Run);
      assert Step(a, t, Run).pcs[t] == Writer;
    } else {
      var m := NextMove(s, t);
      NearerHelps(s, m);
      LoneStays(s, t, m);
      StepKeeps(s, m.task, m.action);
      FinishUpgrade(Step(s, m.task, m.action), t);
      GetsLater(s, m, t, Writer);
    }
  }

  lemma GetsLater(s: State, m: Move, t: Task, pc: Pc)
    requires CanMove(s, m) && CanGet(Step(s, m.task, m.action), t, pc)
    ensures CanGet(s, t, pc)
  {
    hide Step, CanReach;
    ReachSelf(s);
    ReachNext(s, s, m.task, m.action);
    var next := Step(s, m.task, m.action);
    var u :| CanReach(next, u) && t < |u.pcs| && u.pcs[t] == pc;
    ReachMore(s, next, u);
  }

  // ---- downgrades ----

  /** Anywhere in `downgrade`. */
  predicate Downgrading(pc: Pc) {
    match pc
    case TakeMeta(op) => op == Downgrade
    case DropExclusive(op) => op == Downgrade
    case Enter(op, _) => op == Downgrade
    case DropMeta(op) => op == Downgrade
    case _ => false
  }

  /** In `lock` or `lock_shared`, with the meta mutex and without the exclusive one. */
  predicate Queued(pc: Pc) {
    pc == TakeExclusive(Lock) || (pc.Enter? && pc.op == LockShared)
  }

  /** A downgrade can be completed exactly when no task is on its way in with the meta mutex. */
  lemma DowngradeFinishesIff(run: seq<State>, k: nat, t: Task)
    requires IsRun(run) && k < |run| && t < |run[k].pcs| && Downgrading(run[k].pcs[t])
    ensures CanGet(run[k], t, Reader) <==> forall u :: 0 <= u < |run[k].pcs| ==> !Queued(run[k].pcs[u])
  {
    hide Step, IsRun, Inv, DownJam;
    var s := run[k];
    RunInv(run, k);
    if forall u :: 0 <= u < |s.pcs| ==> !Queued(s.pcs[u]) {
      FinishDowngrade(s, t);
    } else if CanGet(s, t, Reader) {
      var v :| CanReach(s, v) && t < |v.pcs| && v.pcs[t] == Reader;
      var moves :| Leads(s, v, moves);
      var u: Task :| u < |s.pcs| && Queued(s.pcs[u]);
      InItsWay(s, t, u);
      DownJamStays(s, t, u, v, moves);
      DownJamIsFar(v, t, u);
    }
  }

  /** The writer `t` waits for the meta mutex to downgrade, and `u` has it and waits, or will wait, for the exclusive one. */
  predicate DownJam(s: State, t: Task, u: Task) {
    && t < |s.pcs| && u < |s.pcs| && s.pcs[t] == TakeMeta(Downgrade) && Queued(s.pcs[u])
    && s.pcs[u] != Enter(LockShared, DropShared)
  }

  lemma DownJamIsFar(s: State, t: Task, u: Task)
    requires DownJam(s, t, u)
    ensures s.pcs[t] != Reader
  {
  }

  lemma InItsWay(s: State, t: Task, u: Task)
    requires Inv(s) && t < |s.pcs| && u < |s.pcs| && Downgrading(s.pcs[t]) && Queued(s.pcs[u])
    ensures DownJam(s, t, u)
  {
    var h :| InvWith(s, h);
    assert Local(s, h, t) && Local(s, h, u);
  }

  lemma DownJamStep(s: State, t: Task, u: Task, w: Task, a: Action)
    requires Inv(s) && DownJam(s, t, u) && w < |s.pcs| && Allowed(s.pcs[w], a)
    ensures DownJam(Step(s, w, a), t, u)
  {
    hide CountedTasks;
    var h :| InvWith(s, h);
    assert Local(s, h, t) && Local(s, h, u);
  }

  lemma {:induction false} DownJamStays(s: State, t: Task, u: Task, v: State, moves: seq<Move>)
    requires Inv(s) && DownJam(s, t, u) && Leads(s, v, moves)
    ensures DownJam(v, t, u)
    decreases |moves|
  {
    hide Step, Inv, DownJam;
    if moves != [] {
      var m := moves[0];
      DownJamStep(s, t, u, m.task, m.action);
      StepKeeps(s, m.task, m.action);
      DownJamStays(Step(s, m.task, m.action), t, u, v, moves[1..]);
    }
  }

  /** In every run, once they wait for each other they always do. */
  lemma {:induction false} DowngradersStuck(run: seq<State>, i: nat, j: nat, t: Task, u: Task)
    requires IsRun(run) && i <= j < |run| && DownJam(run[i], t, u)
    ensures DownJam(run[j], t, u)
  {
    hide Step, Inv, DownJam, Init;
    if i < j {
      DowngradersStuck(run, i, j - 1, t, u);
      var s := run[j - 1];
      RunInv(run, j - 1);
      assert Stepped(s, run[j]);
      var w: Task, a :| w < |s.pcs| && Allowed(s.pcs[w], a) && run[j] == Step(s, w, a);
      DownJamStep(s, t, u, w, a);
    }
  }

  /** A writer that downgrades while a reader waits for it. */
  lemma DowngradeStuckReached(s: State) returns (run: seq<State>)
    requires Init(s) && |s.pcs| >= 2
    ensures IsRun(run) && run[0] == s && DownJam(run[|run| - 1], 0, 1)
    ensures run[|run| - 1].pcs == s.pcs[0 := TakeMeta(Downgrade)][1 := Enter(LockShared, Exclusive)]
  {
    hide CanReach;
    FirstWriter(s, 0);
    var a := s.(exclusive := OwnedBy(0), pcs := s.pcs[0 := Writer]);
    ReachNext(s, a, 1, Call(LockShared));
    var b := Goto(a, 1, TakeMeta(LockShared));
    ReachNext(s, b, 1, Run);
    var c := Goto(b, 1, Enter(LockShared, TakeShared)).(meta := OwnedBy(1));
    assert Step(b, 1, Run) == c;
    TakeCount(s, c, 1);
    var d := Goto(c, 1, Enter(LockShared, Store(0))).(shared := OwnedBy(1));
    ReachNext(s, d, 1, Run);
    var e := Goto(d, 1, Enter(LockShared, Exclusive)).(num := 1);
    assert Step(d, 1, Run) == e;
    ReachNext(s, e, 0, Call(Downgrade));
    run := RunTo(s, Goto(e, 0, TakeMeta(Downgrade)));
    assert run[|run| - 1].pcs == s.pcs[0 := TakeMeta(Downgrade)][1 := Enter(LockShared, Exclusive)];
  }

  lemma FirstWriter(s: State, t: Task)
    requires s.meta == s.exclusive == Unowned && t < |s.pcs| && s.pcs[t] == Idle
    ensures CanReach(s, s.(exclusive := OwnedBy(t), pcs := s.pcs[t := Writer]))
  {
    hide CanReach;
    ReachSelf(s);
    ReachNext(s, s, t, Call(Lock));
    var a := Goto(s, t, TakeMeta(Lock));
    ReachNext(s, a, t, Run);
    var b := Goto(s, t, TakeExclusive(Lock)).(meta := OwnedBy(t));
    assert Step(a, t, Run) == b;
    ReachNext(s, b, t, Run);
    var c := Goto(s, t, DropMeta(Lock)).(meta := OwnedBy(t), exclusive := OwnedBy(t));
    assert Step(b, t, Run) == c;
    ReachNext(s, c, t, Run);
    assert Step(c, t, Run) == s.(exclusive := OwnedBy(t), pcs := s.pcs[t := Writer]);
  }

  /** Until the downgrade is complete, it or a reader that is leaving can come nearer. */
  lemma NextDown(s: State, t: Task) returns (m: Move)
    requires Inv(s) && t < |s.pcs| && Downgrading(s.pcs[t]) && forall u :: 0 <= u < |s.pcs| ==> !Queued(s.pcs[u])
    ensures Nearer(s, m) && Downgrading(s.pcs[t])
    ensures m.task != t ==> s.pcs[m.task].Leave?
  {
    hide CountedTasks;
    var h :| InvWith(s, h);
    assert Local(s, h, t);
    if s.shared.OwnedBy? && !HoldsMeta(s.pcs[s.shared.task]) {
      m := SharedGoesOn(s, h);
      assert Local(s, h, m.task);
    } else {
      m := Move(t, Run);
      if s.meta.OwnedBy? {
        assert Local(s, h, s.meta.task);
      }
      if HoldsMeta(s.pcs[t]) {
        SharedInMeta(s, h, t);
      }
    }
  }

  /** It completes. */
  lemma {:induction false} FinishDowngrade(s: State, t: Task)
    requires Inv(s) && t < |s.pcs| && Downgrading(s.pcs[t]) && forall u :: 0 <= u < |s.pcs| ==> !Queued(s.pcs[u])
    ensures CanGet(s, t, Reader)
    decreases Weights(s.pcs)
  {
    hide Inv, CanReach, Weights;
    ReachSelf(s);
    var m := NextDown(s, t);
    NearerHelps(s, m);
    StepKeeps(s, m.task, m.action);
    var next := Step(s, m.task, m.action);
    if next.pcs[t] == Reader {
      ReachNext(s, s, m.task, m.action);
    } else {
      FinishDowngrade(next, t);
      GetsLater(s, m, t, Reader);
    }
  }

  // ---- the only ways to get stuck ----

  ghost predicate JamFree(s: State) {
    (forall t: Task, u: Task :: !Jam(s, t, u)) && (forall t: Task, u: Task :: !DownJam(s, t, u))
  }

  ghost predicate AllIdle(s: State) {
    forall t :: 0 <= t < |s.pcs| ==> s.pcs[t] == Idle
  }

  /** A move that makes no two tasks wait for each other: with the meta mutex free, an upgrade or downgrade goes first. */
  ghost predicate Wise(s: State, m: Move) {
    && Nearer(s, m)
    && (s.pcs[m.task].TakeMeta? && s.pcs[m.task].op in {Lock, LockShared} ==>
          forall u :: 0 <= u < |s.pcs| ==> s.pcs[u] != TakeMeta(Upgrade) && s.pcs[u] != TakeMeta(Downgrade))
  }

  lemma WiseKeepsFree(s: State, m: Move)
    requires JamFree(s) && Wise(s, m)
    ensures JamFree(Step(s, m.task, m.action))
  {
    hide Step;
    var s' := Step(s, m.task, m.action);
    StepSize(s, m.task, m.action);
    WiseMoves(s, m);
    forall t: Task, u: Task ensures !Jam(s', t, u) && !DownJam(s', t, u) {
      assert !Jam(s, t, u) && !DownJam(s, t, u);
    }
  }

  /** Where a wise move takes its task, as far as waiting goes. */
  lemma WiseMoves(s: State, m: Move)
    requires Wise(s, m)
    ensures var s' := Step(s, m.task, m.action); var pc, pc' := s.pcs[m.task], s'.pcs[m.task];
      && |s'.pcs| == |s.pcs| && !pc'.TakeMeta?
      && (Upgrading(pc') || pc'.TakeExclusive? ==> Upgrading(pc) || pc == TakeMeta(Lock))
      && (Queued(pc') ==> pc == TakeMeta(Lock) || pc == TakeMeta(LockShared) || (Queued(pc) && pc != Enter(LockShared, DropShared)))
  {
    hide Trunc32;
  }

  /** There is one as long as some task is not idle. */
  lemma NextWise(s: State, t: Task) returns (m: Move)
    requires Inv(s) && JamFree(s) && t < |s.pcs| && s.pcs[t] != Idle
    ensures Wise(s, m)
  {
    hide CountedTasks, Global, Jam, DownJam;
    var h :| InvWith(s, h);
    if s.shared.OwnedBy? && !HoldsMeta(s.pcs[s.shared.task]) {
      m := SharedGoesOn(s, h);
    } else if s.meta.OwnedBy? {
      var u := s.meta.task;
      assert Local(s, h, u);
      SharedInMeta(s, h, u);
      m := Move(u, Run);
      if (s.pcs[u].TakeExclusive? || Opening(s.pcs[u])) && s.exclusive != Unowned {
        m := Unblock(s, h, u);
      }
    } else {
      NotShared(s, h);
      m := NextFree(s, h, t);
    }
  }

  lemma NotShared(s: State, h: Holder)
    requires InvWith(s, h) && s.meta == Unowned && (s.shared.OwnedBy? ==> HoldsMeta(s.pcs[s.shared.task]))
    ensures s.shared == Unowned
  {
    if s.shared.OwnedBy? {
      assert Local(s, h, s.shared.task);
    }
  }

  /** Nobody has the meta mutex or is changing the count: whoever is to go on can. */
  lemma NextFree(s: State, h: Holder, t: Task) returns (m: Move)
    requires InvWith(s, h) && s.meta == Unowned && s.shared == Unowned && t < |s.pcs| && s.pcs[t] != Idle
    ensures Wise(s, m)
  {
    hide CountedTasks, Global;
    var u := t;
    if v: Task :| v < |s.pcs| && (s.pcs[v] == TakeMeta(Upgrade) || s.pcs[v] == TakeMeta(Downgrade)) {
      u := v;
    }
    assert Local(s, h, u);
    m := Move(u, if s.pcs[u] == Reader then Call(UnlockShared) else if s.pcs[u] == Writer then Call(Unlock) else Run);
  }

  /** The task with the meta mutex waits for the exclusive one: who has that can give it up. */
  lemma Unblock(s: State, h: Holder, u: Task) returns (m: Move)
    requires InvWith(s, h) && JamFree(s) && u < |s.pcs| && HoldsMeta(s.pcs[u]) && s.exclusive != Unowned
    requires (s.pcs[u].TakeExclusive? && s.shared == Unowned) || (Opening(s.pcs[u]) && s.shared == OwnedBy(u))
    ensures Wise(s, m)
  {
    assert Local(s, h, u);
    if h.One? {
      m := OwnerGoesOn(s, h, u);
    } else {
      m := ReaderGoesOn(s, h, u);
    }
  }

  lemma OwnerGoesOn(s: State, h: Holder, u: Task) returns (m: Move)
    requires InvWith(s, h) && JamFree(s) && u < |s.pcs| && h.One? && HoldsMeta(s.pcs[u])
    requires s.pcs[u].TakeExclusive? || Opening(s.pcs[u])
    ensures Wise(s, m)
  {
    hide CountedTasks, Global;
    var v := h.task;
    assert Local(s, h, v) && Local(s, h, u) && !DownJam(s, v, u);
    m := Move(v, if s.pcs[v] == Writer then Call(Unlock) else Run);
  }

  lemma ReaderGoesOn(s: State, h: Holder, u: Task) returns (m: Move)
    requires InvWith(s, h) && JamFree(s) && u < |s.pcs| && h == Readers && HoldsMeta(s.pcs[u])
    requires (s.pcs[u].TakeExclusive? && s.shared == Unowned) || (Opening(s.pcs[u]) && s.shared == OwnedBy(u))
    ensures Wise(s, m)
  {
    assert Local(s, h, u);
    var v := SomeCounted(s);
    assert Local(s, h, v) && !Jam(s, u, v);
    m := Move(v, if s.pcs[v] == Reader then Call(UnlockShared) else Run);
  }

  lemma SomeCounted(s: State) returns (v: Task)
    requires |CountedTasks(s.pcs)| > 0
    ensures v < |s.pcs| && Counted(s.pcs[v])
  {
    var w :| w in CountedTasks(s.pcs);
    v := w;
  }

  /** From any state of any run everybody can get out of the lock exactly when no two tasks wait for each other in one of
      these ways: there are no others. */
  lemma DrainsIff(run: seq<State>, k: nat)
    requires IsRun(run) && k < |run|
    ensures (exists v :: CanReach(run[k], v) && AllIdle(v)) <==> JamFree(run[k])
  {
    hide Step, IsRun, Inv, Jam, DownJam;
    var s := run[k];
    RunInv(run, k);
    if JamFree(s) {
      var v := Drain(s);
    } else if exists v :: CanReach(s, v) && AllIdle(v) {
      var v :| CanReach(s, v) && AllIdle(v);
      var moves :| Leads(s, v, moves);
      if t: Task, u: Task :| Jam(s, t, u) {
        JamStays(s, t, u, v, moves);
        JamNotIdle(v, t, u);
      } else {
        var t: Task, u: Task :| DownJam(s, t, u);
        DownJamStays(s, t, u, v, moves);
        JamNotIdle(v, t, u);
      }
    }
  }

  lemma JamNotIdle(s: State, t: Task, u: Task)
    requires Jam(s, t, u) || Jam(s, u, t) || DownJam(s, t, u)
    ensures !AllIdle(s)
  {
  }

  lemma {:induction false} Drain(s: State) returns (v: State)
    requires Inv(s) && JamFree(s)
    ensures CanReach(s, v) && AllIdle(v)
    decreases Weights(s.pcs)
  {
    hide Inv, CanReach, Weights, JamFree, Step;
    ReachSelf(s);
    v := s;
    if t: Task :| t < |s.pcs| && s.pcs[t] != Idle {
      var m := NextWise(s, t);
      NearerHelps(s, m);
      WiseKeepsFree(s, m);
      StepKeeps(s, m.task, m.action);
      ReachNext(s, s, m.task, m.action);
      v := Drain(Step(s, m.task, m.action));
      ReachMore(s, Step(s, m.task, m.action), v);
    }
  }
}
