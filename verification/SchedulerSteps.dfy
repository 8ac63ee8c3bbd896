/** The scheduler as a step relation: tasks, the ready queue, the running task, kernel stacks and the timer. */
module SchedulerSteps {
  import opened Common

  const TASK_MAX := 16
  const TASK_QUANTUM_DEFAULT := 5
  const KERNEL_STACK_REGION_START := 0xC020_0000
  const KERNEL_STACK_REGION_END := 0xC03F_EFFF
  const KERNEL_STACK_SIZE := 0x4000

  /** The null task pointer. */
  const NIL := TASK_MAX

  datatype TaskState = Unused | Ready | Running | Waiting | Zombie

  datatype TaskType = Kernel | User | UserProcess

  /** A task control block without its queue links; `stackBase` 0 is null, and `children` starts with the youngest. */
  datatype Info = Info(
    pid: nat, state: TaskState, kind: TaskType, quantum: nat, ticks: nat, stackBase: nat,
    parent: nat, children: seq<nat>, waitingForPid: int, wakeTick: nat, exitStatus: int)

  datatype State = State(tasks: seq<Info>, queue: seq<nat>, current: nat, slots: seq<bool>, nextPid: nat, now: nat)

  function StackBase(slot: nat): nat {
    KERNEL_STACK_REGION_START + KERNEL_STACK_SIZE * slot
  }

  /** `task_stack_slot_count`. */
  function StackSlotCount(): nat {
    Min((KERNEL_STACK_REGION_END - KERNEL_STACK_REGION_START + 1) / KERNEL_STACK_SIZE, TASK_MAX)
  }

  // ---------------------------------------------------------------- the steps

  ghost function SetState(s: State, i: nat, x: TaskState): State
    requires i < |s.tasks|
  {
    s.(tasks := s.tasks[i := s.tasks[i].(state := x)])
  }

  /** A task becomes ready at the tail of the queue. */
  ghost function Enqueue(s: State, i: nat): State
    requires i < |s.tasks|
  {
    SetState(s, i, Ready).(queue := s.queue + [i])
  }

  /** The head of the queue becomes the running task with a new quantum. */
  ghost function SelectNext(s: State): State
    requires s.queue != [] && s.queue[0] < |s.tasks|
  {
    var i := s.queue[0];
    s.(tasks := s.tasks[i := s.tasks[i].(state := Running, ticks := 0)], queue := s.queue[1..], current := i)
  }

  ghost function Requeue(s: State): State
    requires s.current < |s.tasks|
  {
    if s.tasks[s.current].state == Running then Enqueue(s, s.current) else s
  }

  /** `task_schedule`, and `task_yield`, which is the same. */
  ghost function Schedule(s: State): State
    requires s.current < |s.tasks| && Requeue(s).queue != [] && Requeue(s).queue[0] < |s.tasks|
  {
    SelectNext(Requeue(s))
  }

  ghost predicate Due(s: State, i: nat)
    requires i < |s.tasks|
  {
    s.tasks[i].state == Waiting && s.tasks[i].wakeTick != 0 && s.tasks[i].wakeTick <= s.now
  }

  ghost function Wake(s: State, i: nat): State
    requires i < |s.tasks|
  {
    if Due(s, i) then Enqueue(s.(tasks := s.tasks[i := s.tasks[i].(wakeTick := 0)]), i) else s
  }

  /** Sleepers whose time has come are enqueued in table order. */
  ghost function WakeFrom(s: State, i: nat): (r: State)
    requires i <= |s.tasks|
    ensures |r.tasks| == |s.tasks| && r.current == s.current
    decreases |s.tasks| - i
  {
    if i == |s.tasks| then s else WakeFrom(Wake(s, i), i + 1)
  }

  /** One timer interrupt up to the point where the quantum is checked. */
  ghost function Elapse(s: State): State
    requires s.current < |s.tasks|
  {
    var w := WakeFrom(s.(now := s.now + 1), 0);
    if w.tasks[s.current].state == Running
    then w.(tasks := w.tasks[s.current := w.tasks[s.current].(ticks := w.tasks[s.current].ticks + 1)])
    else w
  }

  ghost predicate Expired(s: State)
    requires s.current < |s.tasks|
  {
    s.tasks[s.current].state == Running && s.tasks[s.current].ticks >= s.tasks[s.current].quantum
  }

  /** The ticks of a sleep: ten milliseconds each, at least one, in 32-bit arithmetic. */
  function DelayTicks(ms: nat): nat {
    Max(Wrap32(ms + 9) / 10, 1)
  }

  /** A sleep of `ms` milliseconds up to the call of the scheduler. */
  ghost function Doze(s: State, ms: nat): State
    requires s.current < |s.tasks|
  {
    if ms == 0 then s
    else s.(tasks := s.tasks[s.current := s.tasks[s.current].(wakeTick := s.now + DelayTicks(ms), state := Waiting)])
  }

  /** The parent is waiting for this task, or for any. */
  ghost predicate ParentWaits(s: State, i: nat)
    requires i < |s.tasks|
  {
    var p := s.tasks[i].parent;
    p < |s.tasks| && s.tasks[p].state == Waiting
    && (s.tasks[p].waitingForPid == s.tasks[i].pid || s.tasks[p].waitingForPid == -1)
  }

  /** `task_terminate`: the running task becomes a zombie and its parent is woken if it waits. */
  ghost function Terminate(s: State, status: int): State
    requires s.current < |s.tasks|
  {
    var t := s.(tasks := s.tasks[s.current := s.tasks[s.current].(exitStatus := status, state := Zombie)]);
    if ParentWaits(t, s.current)
    then
      var p := t.tasks[s.current].parent;
      Enqueue(t.(tasks := t.tasks[p := t.tasks[p].(waitingForPid := 0)]), p)
    else t
  }

  /** The first unused entry of the table from `i` on, or its length. */
  function FirstUnused(tasks: seq<Info>, i: nat): (r: nat)
    requires i <= |tasks|
    ensures i <= r <= |tasks| && (r < |tasks| ==> tasks[r].state == Unused)
    ensures forall j :: i <= j < r ==> tasks[j].state != Unused
    decreases |tasks| - i
  {
    if i == |tasks| || tasks[i].state == Unused then i else FirstUnused(tasks, i + 1)
  }

  /** The first free stack slot from `i` on, or the number of slots. */
  function FirstSlot(slots: seq<bool>, i: nat): (r: nat)
    requires i <= |slots|
    ensures i <= r <= |slots| && (r < |slots| ==> !slots[r])
    ensures forall j :: i <= j < r ==> slots[j]
    decreases |slots| - i
  {
    if i == |slots| || !slots[i] then i else FirstSlot(slots, i + 1)
  }

  /** A new control block as `task_alloc` fills it in. */
  function FreshInfo(pid: nat, x: TaskState, stackBase: nat): Info {
    Info(pid, x, Kernel, TASK_QUANTUM_DEFAULT, 0, stackBase, NIL, [], -1, 0, 0)
  }

  /** An entry of the table as `task_init` leaves it. */
  function EmptyInfo(): Info {
    Info(0, Unused, Kernel, 0, 0, 0, NIL, [], -1, 0, 0)
  }

  /** The table with its first three entries, `used` stacks handed out. */
  function Table(first: seq<Info>, queue: seq<nat>, current: nat, used: nat, nextPid: nat, now: nat): State
    requires |first| <= TASK_MAX
  {
    State(first + seq(TASK_MAX - |first|, _ => EmptyInfo()), queue, current, seq(TASK_MAX, i => i < used), nextPid, now)
  }

  /** The state at the end of start-up: the idle task is the only one, and runs. */
  function Booted(now: nat): State {
    Table([FreshInfo(1, Running, StackBase(0))], [], 0, 1, 2, now)
  }

  /** `task_alloc`: a table entry and a kernel stack, or the null pointer. */
  ghost function Alloc(s: State): (r: (State, nat))
    requires |s.tasks| == TASK_MAX
  {
    var i := FirstUnused(s.tasks, 0);
    var j := FirstSlot(s.slots, 0);
    if i == TASK_MAX then (s, NIL)
    else if j == |s.slots|
      then (s.(tasks := s.tasks[i := FreshInfo(s.nextPid, Unused, 0)], nextPid := s.nextPid + 1), NIL)
    else (s.(tasks := s.tasks[i := FreshInfo(s.nextPid, Ready, StackBase(j))], nextPid := s.nextPid + 1,
             slots := s.slots[j := true]), i)
  }

  /** A new task is enqueued; if memory for it cannot be had the entry is given up, but not its stack slot. */
  ghost function Create(s: State, kind: TaskType, memory: bool): State
    requires |s.tasks| == TASK_MAX
  {
    var (t, i) := Alloc(s);
    if i == NIL then t
    else if !memory then SetState(t, i, Unused)
    else Enqueue(t.(tasks := t.tasks[i := t.tasks[i].(kind := kind)]), i)
  }

  /** `sys_fork`, as far as tasks go. */
  ghost function Fork(s: State, memory: bool): State
    requires |s.tasks| == TASK_MAX && s.current < TASK_MAX
  {
    if s.tasks[s.current].kind != UserProcess then s
    else
      var (t, i) := Alloc(s);
      if i == NIL then t
      else if !memory then SetState(t, i, Unused)
      else
        var child := t.tasks[i].(kind := UserProcess, parent := s.current);
        var u := t.tasks[i := child];
        Enqueue(t.(tasks := u[s.current := u[s.current].(children := [i] + u[s.current].children)]), i)
  }

  /** Entry `c` of the table has that process number. */
  predicate HasPid(tasks: seq<Info>, c: nat, pid: int) {
    c < |tasks| && c != NIL && tasks[c].pid == pid
  }

  /** Child `k` is the first of them with that process number. */
  ghost predicate FirstChild(tasks: seq<Info>, children: seq<nat>, pid: int, k: int) {
    && 0 <= k < |children| && HasPid(tasks, children[k], pid)
    && forall l :: 0 <= l < k ==> !HasPid(tasks, children[l], pid)
  }

  /** The first child with a process number, or null exactly when no child has it. */
  function FindChild(tasks: seq<Info>, children: seq<nat>, pid: int): (c: nat)
    ensures c == NIL <==> forall k :: 0 <= k < |children| ==> !HasPid(tasks, children[k], pid)
    ensures c != NIL ==> c in children && c < |tasks| && tasks[c].pid == pid
    ensures forall k: nat :: FirstChild(tasks, children, pid, k) ==> c == children[k]
  {
    if children == [] then NIL
    else if HasPid(tasks, children[0], pid) then children[0]
    else
      assert forall k: nat :: FirstChild(tasks, children, pid, k) ==> FirstChild(tasks, children[1..], pid, k - 1);
      FindChild(tasks, children[1..], pid)
  }

  /** The list without the first occurrence of `c`. */
  function Without(children: seq<nat>, c: nat): seq<nat> {
    if children == [] then [] else if children[0] == c then children[1..] else [children[0]] + Without(children[1..], c)
  }

  /** Taking a child out leaves all the others, in order. */
  lemma {:induction false} WithoutFirst(children: seq<nat>, c: nat, k: nat)
    requires k < |children| && children[k] == c && c !in children[..k]
    ensures Without(children, c) == children[..k] + children[k + 1..]
  {
    if k > 0 {
      assert children[0] == children[..k][0];
      assert children[1..][..k - 1] == children[..k][1..];
      assert children[1..][k..] == children[k + 1..];
      WithoutFirst(children[1..], c, k - 1);
    }
  }

  /** The slot of a stack, if the address is one of the stack region. */
  function SlotOf(base: nat): nat {
    if base < KERNEL_STACK_REGION_START then NIL else (base - KERNEL_STACK_REGION_START) / KERNEL_STACK_SIZE
  }

  /** A zombie's stack slot, its place among its parent's children and its table entry are given up. */
  ghost function Bury(s: State, c: nat): State
    requires c < |s.tasks|
  {
    var p := s.tasks[c].parent;
    var tasks := if p < |s.tasks| then s.tasks[p := s.tasks[p].(children := Without(s.tasks[p].children, c))]
      else s.tasks;
    var slot := SlotOf(s.tasks[c].stackBase);
    s.(tasks := tasks[c := tasks[c].(stackBase := 0, kind := Kernel, parent := NIL, waitingForPid := -1,
                                     state := Unused)],
       slots := if slot < |s.slots| then s.slots[slot := false] else s.slots)
  }

  /**
   Entry `c` is unused again and its stack slot is free; its parent has its other children left, in order; and that is
   all that changed.
   */
  ghost predicate Buried(s: State, c: nat, t: State) {
    && c < |s.tasks| == |t.tasks| && |t.slots| == |s.slots|
    && t.queue == s.queue && t.current == s.current && t.nextPid == s.nextPid && t.now == s.now
    && t.tasks[c].state == Unused && t.tasks[c].stackBase == 0
    && (forall j: nat :: j < |s.slots| ==> (t.slots[j] <==> s.slots[j] && s.tasks[c].stackBase != StackBase(j)))
    && (forall i: nat :: i < |s.tasks| && i != c && i != s.tasks[c].parent ==> t.tasks[i] == s.tasks[i])
    && forall p: nat, k: nat :: p == s.tasks[c].parent && p < |s.tasks| && p != c
                                && IsFirst(s.tasks[p].children, c, k) ==>
         t.tasks[p] == s.tasks[p].(children := s.tasks[p].children[..k] + s.tasks[p].children[k + 1..])
  }

  ghost predicate IsFirst(children: seq<nat>, c: nat, k: nat) {
    k < |children| && children[k] == c && c !in children[..k]
  }

  // ---------------------------------------------------------------- what holds in every state

  ghost predicate Shape(s: State) {
    |s.tasks| == TASK_MAX && |s.slots| == StackSlotCount() == TASK_MAX
  }

  /** The queue holds exactly the ready tasks, each once. */
  ghost predicate QueueOk(s: State) {
    && (forall k :: 0 <= k < |s.queue| ==> s.queue[k] < |s.tasks| && s.tasks[s.queue[k]].state == Ready)
    && (forall k, l :: 0 <= k < l < |s.queue| ==> s.queue[k] != s.queue[l])
    && (forall i :: 0 <= i < |s.tasks| && s.tasks[i].state == Ready ==> i in s.queue)
  }

  /** Exactly the current task is running, and its quantum is not used up. */
  ghost predicate RunningOk(s: State) {
    && s.current < |s.tasks| && s.tasks[s.current].state == Running
    && s.tasks[s.current].ticks < TASK_QUANTUM_DEFAULT
    && forall i :: 0 <= i < |s.tasks| && s.tasks[i].state == Running ==> i == s.current
  }

  /** Nothing is running: the state in which the next task is chosen. */
  ghost predicate NoneRunning(s: State) {
    forall i :: 0 <= i < |s.tasks| ==> s.tasks[i].state != Running
  }

  ghost predicate HasStack(s: State, i: nat)
    requires i < |s.tasks|
  {
    var base := s.tasks[i].stackBase;
    SlotOf(base) < |s.slots| && base == StackBase(SlotOf(base)) && s.slots[SlotOf(base)]
  }

  /** Every task in use has a stack slot of its own, marked as taken, and the default quantum. */
  ghost predicate StacksOk(s: State) {
    && (forall i :: 0 <= i < |s.tasks| && s.tasks[i].state != Unused ==>
        HasStack(s, i) && s.tasks[i].quantum == TASK_QUANTUM_DEFAULT)
    && (forall i, j :: 0 <= i < j < |s.tasks| && s.tasks[i].state != Unused && s.tasks[j].state != Unused ==>
        s.tasks[i].stackBase != s.tasks[j].stackBase)
  }

  /** The idle task never blocks. */
  ghost predicate IdleOk(s: State, idle: nat) {
    idle < |s.tasks| && (s.tasks[idle].state == Ready || s.tasks[idle].state == Running)
  }

  ghost predicate Inv(s: State, idle: nat) {
    Shape(s) && QueueOk(s) && RunningOk(s) && StacksOk(s) && IdleOk(s, idle)
  }

  // ---------------------------------------------------------------- steps

  datatype Action =
    | Tick
    | Yield
    | Sleep(ms: nat)
    | Exit(status: int)
    | NewTask(kind: TaskType, memory: bool)
    | ForkTask(memory: bool)
    | Reap(pid: int)

  /** The idle task neither sleeps nor exits; waiting for a child that still runs is another matter. */
  ghost predicate Enabled(s: State, idle: nat, a: Action)
    requires s.current < |s.tasks|
  {
    match a
    case Sleep(_) => s.current != idle
    case Exit(_) => s.current != idle
    case Reap(pid) => var c := FindChild(s.tasks, s.tasks[s.current].children, pid); c != NIL ==>
      s.tasks[c].state == Zombie
    case _ => true
  }

  ghost predicate Step(s: State, idle: nat, a: Action, t: State)
    requires Inv(s, idle) && Enabled(s, idle, a)
  {
    match a
    case Tick => t == (if Expired(Elapse(s)) then Reschedule(Elapse(s)) else Elapse(s))
    case Yield => t == Reschedule(s)
    case Sleep(ms) => t == Reschedule(Doze(s, ms))
    case Exit(status) => t == Reschedule(Terminate(s, status))
    case NewTask(kind, memory) => t == Create(s, kind, memory)
    case ForkTask(memory) => t == Fork(s, memory)
    case Reap(pid) =>
      var c := FindChild(s.tasks, s.tasks[s.current].children, pid);
      t == if c == NIL || s.tasks[s.current].kind != UserProcess then s else Bury(s, c)
  }

  /** `Schedule` where there is something to run. */
  ghost function Reschedule(s: State): State {
    if s.current < |s.tasks| && Requeue(s).queue != [] && Requeue(s).queue[0] < |s.tasks| then Schedule(s) else s
  }

  // ---------------------------------------------------------------- every step keeps what holds

  /** What the claims about stacks depend on. */
  lemma SameStacks(s: State, t: State)
    requires StacksOk(s) && |t.tasks| == |s.tasks| && t.slots == s.slots
    requires forall i :: 0 <= i < |s.tasks| ==>
               t.tasks[i].stackBase == s.tasks[i].stackBase && t.tasks[i].quantum == s.tasks[i].quantum
    requires forall i :: 0 <= i < |s.tasks| ==> (t.tasks[i].state == Unused <==> s.tasks[i].state == Unused)
    ensures StacksOk(t)
  {
    forall i | 0 <= i < |t.tasks| && t.tasks[i].state != Unused
      ensures HasStack(t, i) && t.tasks[i].quantum == TASK_QUANTUM_DEFAULT
    {
      assert HasStack(s, i);
    }
  }

  /** What the claims about the queue depend on. */
  lemma SameQueue(s: State, t: State)
    requires QueueOk(s) && |t.tasks| == |s.tasks| && t.queue == s.queue
    requires forall i :: 0 <= i < |s.tasks| ==> (t.tasks[i].state == Ready <==> s.tasks[i].state == Ready)
    ensures QueueOk(t)
  {
  }

  lemma EnqueueKeeps(s: State, i: nat)
    requires QueueOk(s) && StacksOk(s) && i < |s.tasks| && s.tasks[i].state != Ready && s.tasks[i].state != Unused
    ensures QueueOk(Enqueue(s, i)) && StacksOk(Enqueue(s, i))
  {
    SameStacks(s, Enqueue(s, i));
    hide StacksOk;
    assert i !in s.queue;
    var t := Enqueue(s, i);
    assert t.queue[|s.queue|] == i;
    assert forall k :: 0 <= k < |s.queue| ==> t.queue[k] == s.queue[k];
    assert forall j :: j in s.queue ==> j in t.queue;
  }

  lemma IdleInQueue(s: State, idle: nat)
    requires QueueOk(s) && NoneRunning(s) && IdleOk(s, idle)
    ensures s.queue != [] && s.queue[0] < |s.tasks| && s.tasks[s.queue[0]].state == Ready
  {
    assert idle in s.queue;
  }

  lemma DequeueKeeps(s: State)
    requires QueueOk(s) && s.queue != [] && s.queue[0] < |s.tasks|
    ensures QueueOk(SelectNext(s))
  {
    var t := SelectNext(s);
    assert t.queue == s.queue[1..];
    forall i | 0 <= i < |t.tasks| && t.tasks[i].state == Ready
      ensures i in t.queue
    {
      var k :| 0 <= k < |s.queue| && s.queue[k] == i;
      assert k > 0 && t.queue[k - 1] == i;
    }
  }

  /** Between a task giving up the processor and the next being chosen. */
  ghost predicate Between(s: State, idle: nat) {
    Shape(s) && QueueOk(s) && NoneRunning(s) && StacksOk(s) && IdleOk(s, idle)
  }

  /** Choosing the next task when nothing runs restores all that holds between steps. */
  lemma SelectKeeps(s: State, idle: nat)
    requires Between(s, idle)
    ensures s.queue != [] && s.queue[0] < |s.tasks| && Inv(SelectNext(s), idle)
  {
    hide QueueOk, StacksOk;
    IdleInQueue(s, idle);
    DequeueKeeps(s);
    SameStacks(s, SelectNext(s));
  }

  lemma ScheduleKeeps(s: State, idle: nat)
    requires Inv(s, idle) || (s.current < |s.tasks| && Between(s, idle))
    ensures s.current < |s.tasks| && Between(Requeue(s), idle)
    ensures Requeue(s).queue != [] && Requeue(s).queue[0] < |s.tasks|
    ensures Reschedule(s) == Schedule(s) && Inv(Reschedule(s), idle)
  {
    hide QueueOk, StacksOk;
    if Inv(s, idle) {
      EnqueueKeeps(s, s.current);
    }
    SelectKeeps(Requeue(s), idle);
  }

  /** A task that waits becomes ready. */
  lemma ReadyKeeps(s: State, i: nat, idle: nat)
    requires QueueOk(s) && StacksOk(s) && Shape(s) && IdleOk(s, idle) && i < |s.tasks| && s.tasks[i].state == Waiting
    ensures var t := Enqueue(s, i); QueueOk(t) && StacksOk(t) && Shape(t) && IdleOk(t, idle)
    ensures RunningOk(s) ==> RunningOk(Enqueue(s, i))
    ensures NoneRunning(s) ==> NoneRunning(Enqueue(s, i))
  {
    EnqueueKeeps(s, i);
    hide QueueOk, StacksOk;
  }

  lemma WakeKeeps(s: State, i: nat, idle: nat)
    requires Inv(s, idle) && i < |s.tasks|
    ensures Inv(Wake(s, i), idle) && Wake(s, i).current == s.current && Wake(s, i).now == s.now
    ensures s.queue <= Wake(s, i).queue && Wake(s, i).tasks[s.current] == s.tasks[s.current]
    ensures forall j :: 0 <= j < |s.tasks| && j != i ==> Wake(s, i).tasks[j] == s.tasks[j]
    ensures !Due(Wake(s, i), i)
  {
    hide QueueOk, StacksOk;
    if Due(s, i) {
      var t := s.(tasks := s.tasks[i := s.tasks[i].(wakeTick := 0)]);
      SameQueue(s, t);
      SameStacks(s, t);
      ReadyKeeps(t, i, idle);
    }
  }

  lemma {:induction false} WakeFromKeeps(s: State, i: nat, idle: nat)
    requires Inv(s, idle) && i <= |s.tasks|
    ensures var w := WakeFrom(s, i);
            && Inv(w, idle) && w.current == s.current && s.queue <= w.queue && w.now == s.now
            && w.tasks[s.current] == s.tasks[s.current]
            && (forall j :: 0 <= j < i ==> w.tasks[j] == s.tasks[j])
            && forall j :: i <= j < |s.tasks| ==> !Due(w, j)
    decreases |s.tasks| - i
  {
    hide QueueOk, StacksOk, RunningOk, Wake;
    if i < |s.tasks| {
      WakeKeeps(s, i, idle);
      WakeFromKeeps(Wake(s, i), i + 1, idle);
    }
  }

  /** The timer interrupt up to the check of the quantum: no sleeper that is due is left. */
  lemma ElapseKeeps(s: State, idle: nat)
    requires Inv(s, idle)
    ensures var e := Elapse(s);
            && Shape(e) && QueueOk(e) && StacksOk(e) && IdleOk(e, idle) && e.current == s.current
            && e.tasks[e.current].state == Running && e.tasks[e.current].ticks == s.tasks[s.current].ticks + 1
            && e.tasks[e.current].quantum == TASK_QUANTUM_DEFAULT
            && (forall i :: 0 <= i < |e.tasks| && e.tasks[i].state == Running ==> i == e.current)
            && s.queue <= e.queue && e.now == s.now + 1
            && (forall j :: 0 <= j < |e.tasks| ==> !Due(e, j))
    ensures !Expired(Elapse(s)) ==> Inv(Elapse(s), idle)
  {
    hide QueueOk, WakeFrom, HasStack;
    var t := s.(now := s.now + 1);
    SameQueue(s, t);
    SameStacks(s, t);
    WakeFromKeeps(t, 0, idle);
    var w := WakeFrom(t, 0);
    var e := Elapse(s);
    SameQueue(w, e);
    SameStacks(w, e);
    forall j | 0 <= j < |e.tasks|
      ensures !Due(e, j)
    {
      assert !Due(w, j);
    }
  }

  /** The running task stops running in one of the ways a task can. */
  lemma StopKeeps(s: State, t: State, idle: nat)
    requires Inv(s, idle) && s.current != idle && |t.tasks| == |s.tasks| && t.slots == s.slots && t.queue == s.queue
    requires forall i :: 0 <= i < |s.tasks| && i != s.current ==> t.tasks[i] == s.tasks[i]
    requires t.tasks[s.current].stackBase == s.tasks[s.current].stackBase
             && t.tasks[s.current].quantum == s.tasks[s.current].quantum
    requires t.tasks[s.current].state == Waiting || t.tasks[s.current].state == Zombie
    ensures Between(t, idle)
  {
    hide QueueOk, StacksOk;
    SameQueue(s, t);
    SameStacks(s, t);
  }

  lemma SleepKeeps(s: State, ms: nat, idle: nat)
    requires Inv(s, idle) && s.current != idle
    ensures Inv(Reschedule(Doze(s, ms)), idle)
  {
    hide QueueOk, StacksOk, Reschedule;
    if ms > 0 {
      StopKeeps(s, Doze(s, ms), idle);
    }
    ScheduleKeeps(Doze(s, ms), idle);
  }

  lemma TerminateKeeps(s: State, status: int, idle: nat)
    requires Inv(s, idle) && s.current != idle
    ensures Between(Terminate(s, status), idle) && Terminate(s, status).current == s.current
  {
    hide QueueOk, StacksOk;
    var t := s.(tasks := s.tasks[s.current := s.tasks[s.current].(exitStatus := status, state := Zombie)]);
    StopKeeps(s, t, idle);
    if ParentWaits(t, s.current) {
      var p := t.tasks[s.current].parent;
      var u := t.(tasks := t.tasks[p := t.tasks[p].(waitingForPid := 0)]);
      SameQueue(t, u);
      SameStacks(t, u);
      ReadyKeeps(u, p, idle);
    }
  }

  /** A new stack is nobody's. */
  lemma NewStackKeeps(s: State, t: State, i: nat, j: nat)
    requires Shape(s) && StacksOk(s) && i < |s.tasks| && s.tasks[i].state == Unused && j < |s.slots| && !s.slots[j]
    requires t.slots == s.slots[j := true] && |t.tasks| == |s.tasks|
    requires forall k :: 0 <= k < |s.tasks| && k != i ==> t.tasks[k] == s.tasks[k]
    requires t.tasks[i].stackBase == StackBase(j) && t.tasks[i].quantum == TASK_QUANTUM_DEFAULT
    ensures StacksOk(t)
  {
    assert SlotOf(StackBase(j)) == j;
    forall k | 0 <= k < |t.tasks| && t.tasks[k].state != Unused
      ensures HasStack(t, k) && t.tasks[k].quantum == TASK_QUANTUM_DEFAULT
      ensures k != i ==> t.tasks[k].stackBase != StackBase(j)
    {
      assert k != i ==> HasStack(s, k);
    }
  }

  /** `Alloc` only touches an unused entry; what it returns is ready but not yet in the queue. */
  lemma AllocKeeps(s: State, idle: nat)
    requires Inv(s, idle)
    ensures var (t, i) := Alloc(s);
            && Shape(t) && StacksOk(t) && t.queue == s.queue && t.current == s.current && t.now == s.now
            && i <= TASK_MAX
            && (forall k :: 0 <= k < TASK_MAX && s.tasks[k].state != Unused ==> t.tasks[k] == s.tasks[k])
            && (forall k :: 0 <= k < TASK_MAX && s.tasks[k].state == Unused && k != i ==> t.tasks[k].state == Unused)
            && (i != NIL ==> s.tasks[i].state == Unused && t.tasks[i].state == Ready
                             && t.tasks[i].quantum == TASK_QUANTUM_DEFAULT)
            && (i == NIL <==> (forall k :: 0 <= k < TASK_MAX ==> s.tasks[k].state != Unused)
                              || (forall j :: 0 <= j < TASK_MAX ==> s.slots[j]))
  {
    hide QueueOk, StacksOk;
    var i := FirstUnused(s.tasks, 0);
    var j := FirstSlot(s.slots, 0);
    if i < TASK_MAX {
      var t := Alloc(s).0;
      if j == |s.slots| {
        StackRemoved(s, t, i);
      } else {
        NewStackKeeps(s, t, i, j);
      }
    }
  }

  /** Giving an entry up keeps the stacks of the others; a stack slot may stay taken, or is given up with its entry. */
  lemma StackRemoved(s: State, t: State, i: nat)
    requires StacksOk(s) && i < |s.tasks| == |t.tasks| && |t.slots| == |s.slots|
    requires forall k :: 0 <= k < |s.tasks| && k != i && s.tasks[k].state != Unused ==>
               t.tasks[k].stackBase == s.tasks[k].stackBase && t.tasks[k].quantum == s.tasks[k].quantum
    requires forall k :: 0 <= k < |s.tasks| && k != i && s.tasks[k].state == Unused ==> t.tasks[k].state == Unused
    requires t.tasks[i].state == Unused
    requires t.slots == s.slots
             || (HasStack(s, i) && s.tasks[i].state != Unused
                 && t.slots == s.slots[SlotOf(s.tasks[i].stackBase) := false])
    ensures StacksOk(t)
  {
    forall k | 0 <= k < |t.tasks| && t.tasks[k].state != Unused
      ensures HasStack(t, k) && t.tasks[k].quantum == TASK_QUANTUM_DEFAULT
    {
      assert HasStack(s, k);
      assert s.tasks[i].state != Unused ==> s.tasks[k].stackBase != s.tasks[i].stackBase;
    }
  }

  /** A task fresh from `Alloc` is given up or enqueued. */
  lemma CreateKeeps(s: State, kind: TaskType, memory: bool, idle: nat)
    requires Inv(s, idle)
    ensures Inv(Create(s, kind, memory), idle)
    ensures var t := Create(s, kind, memory); s.queue <= t.queue && t.current == s.current
                                              && t.tasks[s.current] == s.tasks[s.current]
  {
    hide QueueOk, StacksOk, Alloc;
    AllocKeeps(s, idle);
    var (t, i) := Alloc(s);
    if i == NIL {
      SameQueue(s, t);
    } else if !memory {
      GivenUp(s, t, i, idle);
    } else {
      var u := t.(tasks := t.tasks[i := t.tasks[i].(kind := kind)]);
      SameStacks(t, u);
      Spawned(s, u, i, idle);
    }
  }

  lemma GivenUp(s: State, t: State, i: nat, idle: nat)
    requires Inv(s, idle) && Shape(t) && StacksOk(t) && t.queue == s.queue && t.current == s.current && i < TASK_MAX
    requires forall k :: 0 <= k < TASK_MAX && s.tasks[k].state != Unused ==> t.tasks[k] == s.tasks[k]
    requires forall k :: 0 <= k < TASK_MAX && s.tasks[k].state == Unused && k != i ==> t.tasks[k].state == Unused
    requires s.tasks[i].state == Unused
    ensures Inv(SetState(t, i, Unused), idle)
  {
    hide QueueOk, StacksOk;
    StackRemoved(t, SetState(t, i, Unused), i);
    SameQueue(s, SetState(t, i, Unused));
  }

  /** Enqueueing a task that was unused before. */
  lemma Spawned(s: State, u: State, i: nat, idle: nat)
    requires Inv(s, idle) && Shape(u) && StacksOk(u) && u.queue == s.queue && u.current == s.current && i < TASK_MAX
    requires forall k :: 0 <= k < TASK_MAX && s.tasks[k].state != Unused ==>
               u.tasks[k].state == s.tasks[k].state && u.tasks[k].ticks == s.tasks[k].ticks
    requires forall k :: 0 <= k < TASK_MAX && s.tasks[k].state == Unused && k != i ==> u.tasks[k].state == Unused
    requires s.tasks[i].state == Unused && u.tasks[i].state == Ready
    ensures Inv(Enqueue(u, i), idle) && s.queue <= Enqueue(u, i).queue
  {
    hide QueueOk, StacksOk;
    var w := SetState(u, i, Waiting);
    SameQueue(s, w);
    SameStacks(u, w);
    ReadyKeeps(w, i, idle);
    assert Enqueue(w, i).tasks == Enqueue(u, i).tasks;
  }

  lemma ForkKeeps(s: State, memory: bool, idle: nat)
    requires Inv(s, idle)
    ensures Inv(Fork(s, memory), idle)
    ensures var t := Fork(s, memory); s.queue <= t.queue && t.current == s.current
                                      && t.tasks[s.current].ticks == s.tasks[s.current].ticks
  {
    hide QueueOk, StacksOk, Alloc;
    AllocKeeps(s, idle);
    var (t, i) := Alloc(s);
    if s.tasks[s.current].kind == UserProcess {
      if i == NIL {
        SameQueue(s, t);
      } else if !memory {
        GivenUp(s, t, i, idle);
      } else {
        var child := t.tasks[i].(kind := UserProcess, parent := s.current);
        var u := t.tasks[i := child];
        var v := t.(tasks := u[s.current := u[s.current].(children := [i] + u[s.current].children)]);
        SameStacks(t, v);
        Spawned(s, v, i, idle);
      }
    }
  }

  lemma BuryKeeps(s: State, c: nat, idle: nat)
    requires Inv(s, idle) && c < |s.tasks| && s.tasks[c].state == Zombie
    ensures Inv(Bury(s, c), idle)
    ensures var t := Bury(s, c); t.queue == s.queue && t.current == s.current
                                 && t.tasks[s.current].ticks == s.tasks[s.current].ticks
  {
    assert HasStack(s, c);
    hide QueueOk, StacksOk;
    var t := Bury(s, c);
    StackRemoved(s, t, c);
    SameQueue(s, t);
  }

  lemma BuryMeans(s: State, c: nat, idle: nat)
    requires Inv(s, idle) && c < |s.tasks| && s.tasks[c].state == Zombie
    ensures Buried(s, c, Bury(s, c))
  {
    assert HasStack(s, c);
    hide QueueOk, StacksOk;
    var t := Bury(s, c);
    forall p: nat, k: nat | p == s.tasks[c].parent && p < |s.tasks| && p != c && IsFirst(s.tasks[p].children, c, k)
      ensures t.tasks[p] == s.tasks[p].(children := s.tasks[p].children[..k] + s.tasks[p].children[k + 1..])
    {
      WithoutFirst(s.tasks[p].children, c, k);
    }
  }

  /** Every step keeps all that holds. */
  lemma StepKeeps(s: State, idle: nat, a: Action, t: State)
    requires Inv(s, idle) && Enabled(s, idle, a) && Step(s, idle, a, t)
    ensures Inv(t, idle)
  {
    hide QueueOk, StacksOk, Reschedule, Elapse, Doze, Terminate, Create, Fork, Bury, FindChild;
    match a
    case Tick =>
      ElapseKeeps(s, idle);
      if Expired(Elapse(s)) {
        TickSwitches(s, idle);
      }
    case Yield => ScheduleKeeps(s, idle);
    case Sleep(ms) => SleepKeeps(s, ms, idle);
    case Exit(status) =>
      TerminateKeeps(s, status, idle);
      ScheduleKeeps(Terminate(s, status), idle);
    case NewTask(kind, memory) => CreateKeeps(s, kind, memory, idle);
    case ForkTask(memory) => ForkKeeps(s, memory, idle);
    case Reap(pid) =>
      var c := FindChild(s.tasks, s.tasks[s.current].children, pid);
      if c != NIL {
        BuryKeeps(s, c, idle);
      }
  }

  /** A used-up quantum: the running task goes to the tail and the head runs. */
  lemma TickSwitches(s: State, idle: nat)
    requires Inv(s, idle) && Expired(Elapse(s))
    ensures var e := Elapse(s);
            && e.current < |e.tasks| && Enqueue(e, e.current).queue[0] < |e.tasks|
            && Reschedule(e) == SelectNext(Enqueue(e, e.current)) && Inv(Reschedule(e), idle)
            && s.tasks[s.current].ticks == TASK_QUANTUM_DEFAULT - 1
  {
    hide QueueOk, StacksOk, Elapse;
    ElapseKeeps(s, idle);
    var e := Elapse(s);
    EnqueueKeeps(e, e.current);
    SelectKeeps(Enqueue(e, e.current), idle);
  }

  // ---------------------------------------------------------------- start-up

  lemma BootedOk(now: nat)
    ensures Inv(Booted(now), 0)
  {
    var s := Booted(now);
    assert forall i :: 0 < i < TASK_MAX ==> s.tasks[i] == EmptyInfo();
    assert s.tasks[0] == FreshInfo(1, Running, StackBase(0)) && s.slots[0];
  }

  /** The tables before and after agree entry by entry. */
  lemma SameTable(s: State, t: State)
    requires s.queue == t.queue && s.current == t.current && s.nextPid == t.nextPid && s.now == t.now
    requires |s.tasks| == |t.tasks| && forall i :: 0 <= i < |s.tasks| ==> s.tasks[i] == t.tasks[i]
    requires |s.slots| == |t.slots| && forall i :: 0 <= i < |s.slots| ==> s.slots[i] == t.slots[i]
    ensures s == t
  {
    assert s.tasks == t.tasks && s.slots == t.slots;
  }
}
