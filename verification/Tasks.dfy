/** Handing tasks from one CPU to another (kernel/task.cpp, kernel/task.asm) as a state machine: any number of CPUs, any
    number of tasks, interleaved one load or store at a time.

    A task is claimed by an atomic test-and-set of its `running` flag. The claimer may be interrupted, and the interrupt
    may switch away, before it gets to switch to what it claimed; so a suspended task can have claims of its own. */
module Tasks {

  /** What `switch_task` saves and loads: the kernel stack pointer and the page directory. */
  datatype Context = Context(esp: nat, cr3: nat)

  /** A task control block, and the claims its code has made and not yet switched to, innermost last. */
  datatype Task = Task(running: bool, saved: Context, claims: seq<nat>)

  /** Where a CPU is in `switch_task`; `next` is the task it is switching to. */
  datatype Pc =
    | Executing
    | SaveEsp(next: nat)
    | SaveCr3(next: nat)
    | ClearRunning(next: nat)
    | LoadTcb(next: nat)
    | LoadEsp(next: nat)
    | LoadCr3(next: nat)

  datatype Cpu = Cpu(pc: Pc, tcb: nat, regs: Context)

  /** `live[n]` is the context task `n` had when it last executed. */
  datatype State = State(cpus: seq<Cpu>, tasks: seq<Task>, live: seq<Context>)

  /** What a CPU does next. While executing a task: compute, claim a task, call `switch_task` for its innermost claim, or
      create a task. Otherwise: go on with `switch_task`. */
  datatype Action = Compute(regs: Context) | TestAndSet(task: nat) | Switch | Create(start: Context) | Continue

  predicate Allowed(s: State, c: nat, a: Action)
    requires c < |s.cpus|
  {
    var cpu := s.cpus[c];
    match a
    case Continue => !cpu.pc.Executing?
    case TestAndSet(n) => cpu.pc.Executing? && n < |s.tasks|
    case Switch => cpu.pc.Executing? && cpu.tcb < |s.tasks| && s.tasks[cpu.tcb].claims != []
    case _ => cpu.pc.Executing?
  }

  ghost predicate Sizes(s: State) {
    && |s.live| == |s.tasks|
    && (forall c :: 0 <= c < |s.cpus| ==> s.cpus[c].tcb < |s.tasks|)
    && (forall c :: 0 <= c < |s.cpus| && !s.cpus[c].pc.Executing? ==> s.cpus[c].pc.next < |s.tasks|)
  }

  function SetCpu(s: State, c: nat, cpu: Cpu): State
    requires c < |s.cpus|
  {
    s.(cpus := s.cpus[c := cpu])
  }

  function SetTask(s: State, n: nat, t: Task): State
    requires n < |s.tasks|
  {
    s.(tasks := s.tasks[n := t])
  }

  ghost function Step(s: State, c: nat, a: Action): State
    requires Sizes(s) && c < |s.cpus| && Allowed(s, c, a)
  {
    var cpu := s.cpus[c];
    var me := s.tasks[cpu.tcb];
    match a
    case Compute(regs) => SetCpu(s, c, cpu.(regs := regs)).(live := s.live[cpu.tcb := regs])
    case TestAndSet(n) =>
      if s.tasks[n].running then s
      else
        var u := SetTask(s, n, s.tasks[n].(running := true));
        SetTask(u, cpu.tcb, u.tasks[cpu.tcb].(claims := me.claims + [n]))
    case Switch =>
      var last := |me.claims| - 1;
      SetCpu(SetTask(s, cpu.tcb, me.(claims := me.claims[..last])), c, cpu.(pc := SaveEsp(me.claims[last])))
    case Create(start) => s.(tasks := s.tasks + [Task(false, start, [])], live := s.live + [start])
    case Continue =>
      match cpu.pc
      case SaveEsp(next) =>
        SetCpu(SetTask(s, cpu.tcb, me.(saved := me.saved.(esp := cpu.regs.esp))), c, cpu.(pc := SaveCr3(next)))
      case SaveCr3(next) =>
        SetCpu(SetTask(s, cpu.tcb, me.(saved := me.saved.(cr3 := cpu.regs.cr3))), c, cpu.(pc := ClearRunning(next)))
      case ClearRunning(next) => SetCpu(SetTask(s, cpu.tcb, me.(running := false)), c, cpu.(pc := LoadTcb(next)))
      case LoadTcb(next) => SetCpu(s, c, cpu.(pc := LoadEsp(next), tcb := next))
      case LoadEsp(next) => SetCpu(s, c, cpu.(pc := LoadCr3(next), regs := cpu.regs.(esp := me.saved.esp)))
      case LoadCr3(next) => SetCpu(s, c, cpu.(pc := Executing, regs := cpu.regs.(cr3 := me.saved.cr3)))
      case Executing => s
  }

  // ---- the invariant ----

  /** Who has a task. */
  datatype Place = Nowhere | OnCpu(cpu: nat) | ClaimedBy(task: nat)

  /** The CPU executes its current task or is still putting it away. */
  predicate Current(cpu: Cpu) {
    cpu.pc.Executing? || cpu.pc.SaveEsp? || cpu.pc.SaveCr3? || cpu.pc.ClearRunning?
  }

  /** The CPU has this task: as its current one, or as the one it is switching to. */
  predicate Has(cpu: Cpu, n: nat) {
    (Current(cpu) && cpu.tcb == n) || (!cpu.pc.Executing? && cpu.pc.next == n)
  }

  /** CPU `c` has what `where` says, and its registers and the contexts it has saved so far are those of its task. */
  ghost predicate CpuOk(s: State, where: seq<Place>, c: nat)
    requires Sizes(s) && |where| == |s.tasks| && c < |s.cpus|
  {
    var cpu := s.cpus[c];
    && (Current(cpu) ==> where[cpu.tcb] == OnCpu(c) && cpu.regs == s.live[cpu.tcb])
    && (!cpu.pc.Executing? ==> where[cpu.pc.next] == OnCpu(c) && (Current(cpu) ==> cpu.pc.next != cpu.tcb))
    && (cpu.pc.SaveCr3? || cpu.pc.ClearRunning? ==> s.tasks[cpu.tcb].saved.esp == cpu.regs.esp)
    && (cpu.pc.ClearRunning? ==> s.tasks[cpu.tcb].saved.cr3 == cpu.regs.cr3)
    && (cpu.pc.LoadEsp? || cpu.pc.LoadCr3? ==> cpu.tcb == cpu.pc.next)
    && (cpu.pc.LoadCr3? ==> cpu.regs.esp == s.tasks[cpu.tcb].saved.esp)
  }

  ghost predicate TaskOk(s: State, where: seq<Place>, n: nat)
    requires Sizes(s) && |where| == |s.tasks| && n < |s.tasks|
  {
    var task := s.tasks[n];
    && (task.running <==> where[n] != Nowhere)
    && (forall i :: 0 <= i < |task.claims| ==> task.claims[i] < |s.tasks| && where[task.claims[i]] == ClaimedBy(n))
    && (forall i, j :: 0 <= i < j < |task.claims| ==> task.claims[i] != task.claims[j])
    && (where[n].OnCpu? ==> where[n].cpu < |s.cpus| && Has(s.cpus[where[n].cpu], n))
    && (where[n].ClaimedBy? ==> where[n].task < |s.tasks| && n in s.tasks[where[n].task].claims)
    && (task.saved == s.live[n] || (where[n].OnCpu? && Current(s.cpus[where[n].cpu]) && s.cpus[where[n].cpu].tcb == n))
  }

  ghost predicate InvWith(s: State, where: seq<Place>) {
    && Sizes(s) && |where| == |s.tasks|
    && (forall c: nat :: c < |s.cpus| ==> CpuOk(s, where, c))
    && (forall n: nat :: n < |s.tasks| ==> TaskOk(s, where, n))
  }

  ghost predicate Inv(s: State) {
    exists where :: InvWith(s, where)
  }

  // ---- every step keeps it ----

  lemma ComputeKeeps(s: State, where: seq<Place>, c: nat, a: Action)
    requires InvWith(s, where) && c < |s.cpus| && Allowed(s, c, a) && a.Compute?
    ensures InvWith(Step(s, c, a), where)
  {
    var s' := Step(s, c, a);
    assert CpuOk(s, where, c);
    forall d: nat | d < |s.cpus| ensures CpuOk(s', where, d) {
      assert CpuOk(s, where, d);
    }
    forall n: nat | n < |s.tasks| ensures TaskOk(s', where, n) {
      assert TaskOk(s, where, n);
    }
  }

  lemma ClaimKeeps(s: State, where: seq<Place>, c: nat, n: nat)
    requires InvWith(s, where) && c < |s.cpus| && Allowed(s, c, TestAndSet(n)) && !s.tasks[n].running
    ensures InvWith(Step(s, c, TestAndSet(n)), where[n := ClaimedBy(s.cpus[c].tcb)])
  {
    var s' := Step(s, c, TestAndSet(n));
    var w := where[n := ClaimedBy(s.cpus[c].tcb)];
    assert CpuOk(s, where, c) && TaskOk(s, where, n);
    forall d: nat | d < |s.cpus| ensures CpuOk(s', w, d) {
      assert CpuOk(s, where, d);
    }
    forall m: nat | m < |s.tasks| ensures TaskOk(s', w, m) {
      assert TaskOk(s, where, m);
    }
  }

  lemma SwitchKeeps(s: State, where: seq<Place>, c: nat)
    requires InvWith(s, where) && c < |s.cpus| && Allowed(s, c, Switch)
    ensures var claims := s.tasks[s.cpus[c].tcb].claims;
      claims[|claims| - 1] < |where| && InvWith(Step(s, c, Switch), where[claims[|claims| - 1] := OnCpu(c)])
  {
    var s' := Step(s, c, Switch);
    var claims := s.tasks[s.cpus[c].tcb].claims;
    var n := claims[|claims| - 1];
    assert CpuOk(s, where, c) && TaskOk(s, where, s.cpus[c].tcb);
    var w := where[n := OnCpu(c)];
    forall d: nat | d < |s.cpus| ensures CpuOk(s', w, d) {
      assert CpuOk(s, where, d);
    }
    forall m: nat | m < |s.tasks| ensures TaskOk(s', w, m) {
      assert TaskOk(s, where, m);
    }
  }

  lemma CreateKeeps(s: State, where: seq<Place>, c: nat, a: Action)
    requires InvWith(s, where) && c < |s.cpus| && Allowed(s, c, a) && a.Create?
    ensures InvWith(Step(s, c, a), where + [Nowhere])
  {
    var s' := Step(s, c, a);
    var w := where + [Nowhere];
    forall d: nat | d < |s.cpus| ensures CpuOk(s', w, d) {
      assert CpuOk(s, where, d);
    }
    forall m: nat | m < |s'.tasks| ensures TaskOk(s', w, m) {
      assert m < |s.tasks| ==> TaskOk(s, where, m);
    }
  }

  lemma SaveKeeps(s: State, where: seq<Place>, c: nat)
    requires InvWith(s, where) && c < |s.cpus| && (s.cpus[c].pc.SaveEsp? || s.cpus[c].pc.SaveCr3?)
    ensures InvWith(Step(s, c, Continue), where)
  {
    var s' := Step(s, c, Continue);
    var w := where;
    assert CpuOk(s, where, c);
    forall d: nat | d < |s.cpus| ensures CpuOk(s', w, d) {
      assert CpuOk(s, where, d);
    }
    forall m: nat | m < |s.tasks| ensures TaskOk(s', w, m) {
      assert TaskOk(s, where, m);
    }
  }

  lemma ClearKeeps(s: State, where: seq<Place>, c: nat)
    requires InvWith(s, where) && c < |s.cpus| && s.cpus[c].pc.ClearRunning?
    ensures InvWith(Step(s, c, Continue), where[s.cpus[c].tcb := Nowhere])
  {
    var s' := Step(s, c, Continue);
    var w := where[s.cpus[c].tcb := Nowhere];
    assert CpuOk(s, where, c);
    forall d: nat | d < |s.cpus| ensures CpuOk(s', w, d) {
      assert CpuOk(s, where, d);
    }
    forall m: nat | m < |s.tasks| ensures TaskOk(s', w, m) {
      assert TaskOk(s, where, m);
    }
  }

  lemma LoadKeeps(s: State, where: seq<Place>, c: nat)
    requires InvWith(s, where) && c < |s.cpus| && (s.cpus[c].pc.LoadTcb? || s.cpus[c].pc.LoadEsp? || s.cpus[c].pc.LoadCr3?)
    ensures InvWith(Step(s, c, Continue), where)
  {
    var s' := Step(s, c, Continue);
    var w := where;
    assert CpuOk(s, where, c) && TaskOk(s, where, s.cpus[c].pc.next);
    forall d: nat | d < |s.cpus| ensures CpuOk(s', w, d) {
      assert CpuOk(s, where, d);
    }
    forall m: nat | m < |s.tasks| ensures TaskOk(s', w, m) {
      assert TaskOk(s, where, m);
    }
  }

  lemma StepKeeps(s: State, c: nat, a: Action)
    requires Sizes(s) && Inv(s) && c < |s.cpus| && Allowed(s, c, a)
    ensures Inv(Step(s, c, a))
  {
    var where :| InvWith(s, where);
    match a {
      case Compute(_) => ComputeKeeps(s, where, c, a);
      case TestAndSet(n) =>
        if !s.tasks[n].running {
          ClaimKeeps(s, where, c, n);
        }
      case Switch => SwitchKeeps(s, where, c);
      case Create(_) => CreateKeeps(s, where, c, a);
      case Continue =>
        if s.cpus[c].pc.ClearRunning? {
          ClearKeeps(s, where, c);
        } else if s.cpus[c].pc.SaveEsp? || s.cpus[c].pc.SaveCr3? {
          SaveKeeps(s, where, c);
        } else {
          LoadKeeps(s, where, c);
        }
    }
  }

  // ---- runs ----

  /** Every CPU executes a task of its own, marked as running; no other task is marked or has claims. */
  ghost predicate Init(s: State) {
    && Sizes(s)
    && (forall c :: 0 <= c < |s.cpus| ==> s.cpus[c].pc == Executing && s.cpus[c].regs == s.live[s.cpus[c].tcb])
    && (forall c, d :: 0 <= c < d < |s.cpus| ==> s.cpus[c].tcb != s.cpus[d].tcb)
    && (forall n :: 0 <= n < |s.tasks| ==> s.tasks[n].claims == [] && s.tasks[n].saved == s.live[n])
    && (forall n :: 0 <= n < |s.tasks| ==> (s.tasks[n].running <==> exists c :: 0 <= c < |s.cpus| && s.cpus[c].tcb == n))
  }

  ghost predicate Stepped(s: State, s': State) {
    Sizes(s) && exists c: nat, a :: c < |s.cpus| && Allowed(s, c, a) && s' == Step(s, c, a)
  }

  ghost predicate IsRun(run: seq<State>) {
    run != [] && Init(run[0]) && forall k :: 0 <= k < |run| - 1 ==> Stepped(run[k], run[k + 1])
  }

  lemma InitInv(s: State)
    requires Init(s)
    ensures Inv(s)
  {
    var where := seq(|s.tasks|, n requires 0 <= n < |s.tasks| => InitPlace(s, n));
    forall c: nat | c < |s.cpus| ensures CpuOk(s, where, c) {
      assert s.tasks[s.cpus[c].tcb].running;
    }
    forall n: nat | n < |s.tasks| ensures TaskOk(s, where, n) {}
    assert InvWith(s, where);
  }

  ghost function InitPlace(s: State, n: nat): Place
    requires Init(s) && n < |s.tasks|
  {
    if s.tasks[n].running then
      var c: nat :| c < |s.cpus| && s.cpus[c].tcb == n;
      OnCpu(c)
    else Nowhere
  }

  lemma {:induction false} RunInv(run: seq<State>, k: nat)
    requires IsRun(run) && k < |run|
    ensures Inv(run[k])
  {
    if k == 0 {
      InitInv(run[0]);
    } else {
      RunInv(run, k - 1);
      assert Stepped(run[k - 1], run[k]);
      var c: nat, a :| c < |run[k - 1].cpus| && Allowed(run[k - 1], c, a) && run[k] == Step(run[k - 1], c, a);
      StepKeeps(run[k - 1], c, a);
    }
  }

  // ---- how a switch goes ----

  /** How many steps of its own a CPU is from executing again. */
  function StepsLeft(pc: Pc): nat {
    match pc
    case Executing => 0
    case SaveEsp(_) => 6
    case SaveCr3(_) => 5
    case ClearRunning(_) => 4
    case LoadTcb(_) => 3
    case LoadEsp(_) => 2
    case LoadCr3(_) => 1
  }

  /** A switch begins with the task's innermost claim, which is no claim any more. */
  lemma SwitchBegins(s: State, c: nat)
    requires Sizes(s) && c < |s.cpus| && Allowed(s, c, Switch)
    ensures var t, me := Step(s, c, Switch), s.tasks[s.cpus[c].tcb]; var n := me.claims[|me.claims| - 1];
      && t.cpus == s.cpus[c := Cpu(SaveEsp(n), s.cpus[c].tcb, s.cpus[c].regs)] && t.live == s.live
      && t.tasks == s.tasks[s.cpus[c].tcb := Task(me.running, me.saved, me.claims[..|me.claims| - 1])]
  {
  }

  /** Each step of the CPU brings the switch nearer to its end, where it executes the task it was for, with the context saved
      for that task; the steps of other CPUs leave it where it is. */
  lemma SwitchGoesOn(s: State, c: nat, d: nat, a: Action)
    requires Inv(s) && c < |s.cpus| && d < |s.cpus| && Allowed(s, d, a) && !s.cpus[c].pc.Executing?
    ensures Sizes(s) && |Step(s, d, a).cpus| == |s.cpus|
    ensures d != c ==> Step(s, d, a).cpus[c] == s.cpus[c]
    ensures d == c ==> var was, now := s.cpus[c], Step(s, c, a).cpus[c];
      && StepsLeft(now.pc) + 1 == StepsLeft(was.pc)
      && (if now.pc.Executing? then now.tcb == was.pc.next && now.regs == s.tasks[now.tcb].saved else now.pc.next == was.pc.next)
  {
    var where :| InvWith(s, where);
    assert CpuOk(s, where, c) && CpuOk(s, where, d);
  }

  /** `n` steps of `switch_task` on CPU `c` lead from `s` to `t`. */
  ghost predicate Leads(s: State, c: nat, n: nat, t: State)
    decreases n
  {
    if n == 0 then t == s
    else Sizes(s) && c < |s.cpus| && !s.cpus[c].pc.Executing? && Leads(Step(s, c, Continue), c, n - 1, t)
  }

  lemma {:induction false} LeadsOn(s: State, c: nat, n: nat, t: State, m: nat, u: State)
    requires Leads(s, c, n, t) && Leads(t, c, m, u)
    ensures Leads(s, c, n + m, u)
    decreases n
  {
    hide Step;
    if n > 0 {
      LeadsOn(Step(s, c, Continue), c, n - 1, t, m, u);
    }
  }

  /** Undisturbed, seven steps take a CPU from one task to the next: the first one's context is saved and its flag clear, the
      claim is used up, and nothing else changes. */
  lemma SwitchDone(s: State, c: nat) returns (t: State)
    requires Inv(s) && c < |s.cpus| && Allowed(s, c, Switch)
    ensures Sizes(s) && Leads(Step(s, c, Switch), c, 6, t)
    ensures var o := s.cpus[c].tcb; var me := s.tasks[o]; var n := me.claims[|me.claims| - 1];
      && n < |s.tasks| && n != o
      && t.cpus == s.cpus[c := Cpu(Executing, n, s.tasks[n].saved)] && t.live == s.live
      && t.tasks == s.tasks[o := Task(false, s.cpus[c].regs, me.claims[..|me.claims| - 1])]
  {
    var where :| InvWith(s, where);
    assert CpuOk(s, where, c);
    var o := s.cpus[c].tcb;
    assert TaskOk(s, where, o);
    var u := Step(s, c, Switch);
    var v := SaveSteps(u, c);
    t := LoadSteps(v, c);
    LeadsOn(u, c, 3, v, 3, t);
  }

  lemma SaveSteps(s: State, c: nat) returns (t: State)
    requires Sizes(s) && c < |s.cpus| && s.cpus[c].pc.SaveEsp?
    ensures Leads(s, c, 3, t)
    ensures var cpu := s.cpus[c]; var me := s.tasks[cpu.tcb];
      t == State(s.cpus[c := cpu.(pc := LoadTcb(cpu.pc.next))], s.tasks[cpu.tcb := Task(false, cpu.regs, me.claims)], s.live)
  {
    var u := Step(s, c, Continue);
    var v := Step(u, c, Continue);
    t := Step(v, c, Continue);
    assert Leads(t, c, 0, t) && Leads(v, c, 1, t) && Leads(u, c, 2, t);
  }

  lemma LoadSteps(s: State, c: nat) returns (t: State)
    requires Sizes(s) && c < |s.cpus| && s.cpus[c].pc.LoadTcb?
    ensures Leads(s, c, 3, t)
    ensures var n := s.cpus[c].pc.next; t == State(s.cpus[c := Cpu(Executing, n, s.tasks[n].saved)], s.tasks, s.live)
  {
    var u := Step(s, c, Continue);
    var v := Step(u, c, Continue);
    t := Step(v, c, Continue);
    assert Leads(t, c, 0, t) && Leads(v, c, 1, t) && Leads(u, c, 2, t);
  }

  /** A task is created unmarked, with the context it is to start with saved for whoever takes it first. */
  lemma CreatedStarts(s: State, c: nat, start: Context)
    requires Sizes(s) && c < |s.cpus| && Allowed(s, c, Create(start))
    ensures var t := Step(s, c, Create(start)); var n := |s.tasks|;
      && |t.tasks| == n + 1 && !t.tasks[n].running && t.tasks[n].saved == start && t.tasks[n].claims == []
      && t.cpus == s.cpus && t.tasks[..n] == s.tasks && t.live[..n] == s.live && |t.live| == n + 1 && t.live[n] == start
  {
  }

  /** A claim is made exactly if the task is not marked, and marks it. */
  lemma ClaimIs(s: State, c: nat, n: nat)
    requires Sizes(s) && c < |s.cpus| && Allowed(s, c, TestAndSet(n))
    ensures var t, o := Step(s, c, TestAndSet(n)), s.cpus[c].tcb;
      if s.tasks[n].running then t == s
      else t.cpus == s.cpus && t.live == s.live && |t.tasks| == |s.tasks| && t.tasks[n].running
           && t.tasks[o].claims == s.tasks[o].claims + [n]
           && (forall m :: 0 <= m < |s.tasks| ==> t.tasks[m].saved == s.tasks[m].saved)
           && (forall m :: 0 <= m < |s.tasks| && m != n ==> t.tasks[m].running == s.tasks[m].running)
           && (forall m :: 0 <= m < |s.tasks| && m != o ==> t.tasks[m].claims == s.tasks[m].claims)
  {
  }

  // ---- what the hand-off promises ----

  /** No two CPUs ever have the same task, whether executing it, putting it away or switching to it. */
  lemma OneCpuPerTask(run: seq<State>, k: nat, c: nat, d: nat, n: nat)
    requires IsRun(run) && k < |run| && c < |run[k].cpus| && d < |run[k].cpus|
    requires Has(run[k].cpus[c], n) && Has(run[k].cpus[d], n)
    ensures c == d
  {
    RunInv(run, k);
    var where :| InvWith(run[k], where);
    assert CpuOk(run[k], where, c) && CpuOk(run[k], where, d);
  }

  /** `running` is set exactly while some CPU has the task or some task has claimed it. */
  lemma RunningMeansHad(run: seq<State>, k: nat, n: nat)
    requires IsRun(run) && k < |run| && n < |run[k].tasks|
    ensures run[k].tasks[n].running <==>
      || (exists c :: 0 <= c < |run[k].cpus| && Has(run[k].cpus[c], n))
      || (exists m :: 0 <= m < |run[k].tasks| && n in run[k].tasks[m].claims)
  {
    RunInv(run, k);
    var s := run[k];
    var where :| InvWith(s, where);
    assert TaskOk(s, where, n);
    if c: nat :| c < |s.cpus| && Has(s.cpus[c], n) {
      assert CpuOk(s, where, c);
    }
    if m: nat :| m < |s.tasks| && n in s.tasks[m].claims {
      assert TaskOk(s, where, m);
    }
  }

  /** A CPU that executes a task has the context the task last had, whichever CPU it had it on: the stack pointer was
      saved before any other CPU could take the task. */
  lemma ResumesWhereItStopped(run: seq<State>, k: nat, c: nat)
    requires IsRun(run) && k < |run| && c < |run[k].cpus| && run[k].cpus[c].pc == Executing
    ensures run[k].cpus[c].tcb < |run[k].live| && run[k].cpus[c].regs == run[k].live[run[k].cpus[c].tcb]
  {
    RunInv(run, k);
    var where :| InvWith(run[k], where);
    assert CpuOk(run[k], where, c);
  }

  /** A task that no CPU is executing or putting away can be taken: what is saved is the context it last had. */
  lemma SavedBeforeTaken(run: seq<State>, k: nat, n: nat)
    requires IsRun(run) && k < |run| && n < |run[k].tasks|
    requires forall c :: 0 <= c < |run[k].cpus| && Current(run[k].cpus[c]) ==> run[k].cpus[c].tcb != n
    ensures n < |run[k].live| && run[k].tasks[n].saved == run[k].live[n]
  {
    RunInv(run, k);
    var where :| InvWith(run[k], where);
    assert TaskOk(run[k], where, n);
  }

  /** What a task last had changes only by a CPU that is executing it. */
  lemma LiveChangesByExecuting(run: seq<State>, k: nat, n: nat)
    requires IsRun(run) && k + 1 < |run| && n < |run[k].live|
    ensures n < |run[k + 1].live|
    ensures run[k + 1].live[n] != run[k].live[n] ==>
      exists c :: 0 <= c < |run[k].cpus| && run[k].cpus[c].pc == Executing && run[k].cpus[c].tcb == n
  {
  }
}
