/** What holds over whole runs of the scheduler: safety, separate stacks, and a bound on waiting. */
module SchedulerRuns {
  import opened SchedulerSteps

  /** A run: each state follows from the one before by the action between them. */
  ghost predicate Run(ss: seq<State>, acts: seq<Action>, idle: nat) {
    && |ss| == |acts| + 1 && Inv(ss[0], idle)
    && forall k :: 0 <= k < |acts| ==> Follows(ss, acts, idle, k)
  }

  ghost predicate Follows(ss: seq<State>, acts: seq<Action>, idle: nat, k: nat)
    requires k < |acts| < |ss|
  {
    Inv(ss[k], idle) ==> Enabled(ss[k], idle, acts[k]) && Step(ss[k], idle, acts[k], ss[k + 1])
  }

  /** What holds at the start holds in every state of every run. */
  lemma {:induction false} RunKeeps(ss: seq<State>, acts: seq<Action>, idle: nat, k: nat)
    requires Run(ss, acts, idle) && k < |ss|
    ensures Inv(ss[k], idle)
  {
    hide Inv, Step, Enabled;
    if k > 0 {
      RunKeeps(ss, acts, idle, k - 1);
      assert Follows(ss, acts, idle, k - 1);
      StepKeeps(ss[k - 1], idle, acts[k - 1], ss[k]);
    }
  }

  /** The kernel stacks of two tasks in use lie in the stack region and do not meet. */
  lemma StacksDisjoint(s: State, idle: nat, i: nat, j: nat)
    requires Inv(s, idle) && i < TASK_MAX && j < TASK_MAX && s.tasks[i].state != Unused && s.tasks[j].state != Unused
    ensures KERNEL_STACK_REGION_START <= s.tasks[i].stackBase
            && s.tasks[i].stackBase + KERNEL_STACK_SIZE - 1 <= KERNEL_STACK_REGION_END
    ensures i != j ==> s.tasks[i].stackBase + KERNEL_STACK_SIZE <= s.tasks[j].stackBase
                       || s.tasks[j].stackBase + KERNEL_STACK_SIZE <= s.tasks[i].stackBase
  {
    assert HasStack(s, i) && HasStack(s, j);
  }

  /** A sleep that is due ends with the next timer tick: no due sleeper is left after it. */
  lemma NoOversleeping(s: State, idle: nat, t: State, i: nat)
    requires Inv(s, idle) && Step(s, idle, Tick, t) && i < TASK_MAX
    ensures t.tasks[i].state == Waiting ==> t.tasks[i].wakeTick == 0 || t.now < t.tasks[i].wakeTick
    ensures t.now == s.now + 1
  {
    hide QueueOk, StacksOk, Elapse;
    ElapseKeeps(s, idle);
    assert !Due(Elapse(s), i);
    if Expired(Elapse(s)) {
      TickSwitches(s, idle);
    }
  }

  lemma {:induction false} WakesExactly(s: State, i: nat, idle: nat, j: nat)
    requires Inv(s, idle) && i <= |s.tasks| && j < |s.tasks| && s.tasks[j].state == Waiting
    ensures WakeFrom(s, i).tasks[j].state == Waiting <==> j < i || !Due(s, j)
    decreases |s.tasks| - i
  {
    hide QueueOk, StacksOk, RunningOk;
    if i < |s.tasks| {
      WakeKeeps(s, i, idle);
      WakeFromKeeps(Wake(s, i), i + 1, idle);
      if j == i {
        assert WakeFrom(Wake(s, i), i + 1).tasks[j] == Wake(s, i).tasks[j];
      } else {
        WakesExactly(Wake(s, i), i + 1, idle, j);
      }
    }
  }

  /** Choosing the next task does not touch one that waits. */
  lemma RescheduleSkips(s: State, j: nat)
    requires QueueOk(s) && s.current < |s.tasks| && j < |s.tasks| && s.tasks[j].state == Waiting
    ensures |Reschedule(s).tasks| == |s.tasks| && Reschedule(s).tasks[j] == s.tasks[j]
  {
  }

  /** A tick ends exactly the sleeps that are due. */
  lemma TickWakes(s: State, idle: nat, t: State, j: nat)
    requires Inv(s, idle) && Step(s, idle, Tick, t) && j < |s.tasks| && s.tasks[j].state == Waiting
    ensures |t.tasks| == |s.tasks|
    ensures t.tasks[j].state != Waiting <==> s.tasks[j].wakeTick != 0 && s.tasks[j].wakeTick <= s.now + 1
  {
    hide QueueOk, StacksOk, WakeFrom, Reschedule;
    var u := s.(now := s.now + 1);
    SameQueue(s, u);
    SameStacks(s, u);
    WakesExactly(u, 0, idle, j);
    WakeFromKeeps(u, 0, idle);
    ElapseKeeps(s, idle);
    var e := Elapse(s);
    assert e.tasks[j].state == WakeFrom(u, 0).tasks[j].state;
    if Expired(e) {
      TickSwitches(s, idle);
      if e.tasks[j].state == Waiting {
        RescheduleSkips(e, j);
      } else {
        StaysAwake(e, idle, j);
      }
    }
  }

  lemma {:induction false} WakeOrder(s: State, i: nat, idle: nat) returns (woken: seq<nat>)
    requires Inv(s, idle) && i <= |s.tasks|
    ensures WakeFrom(s, i).queue == s.queue + woken
    ensures forall k, l :: 0 <= k < l < |woken| ==> woken[k] < woken[l]
    ensures forall j: nat :: j in woken <==> i <= j < |s.tasks| && Due(s, j)
    decreases |s.tasks| - i
  {
    hide QueueOk, StacksOk, RunningOk;
    woken := [];
    if i < |s.tasks| {
      WakeKeeps(s, i, idle);
      woken := WakeOrder(Wake(s, i), i + 1, idle);
      assert forall j: nat :: j != i && j < |s.tasks| ==> Due(Wake(s, i), j) == Due(s, j);
      if Due(s, i) {
        var rest := woken;
        woken := [i] + rest;
        assert s.queue + [i] + rest == s.queue + woken;
        assert forall k :: 0 < k < |woken| ==> woken[k] == rest[k - 1] && rest[k - 1] in rest;
        assert forall j :: j in woken <==> j == i || j in rest;
      }
    }
  }

  /**
   A tick puts the sleepers that are due at the end of the queue, in the order of their entries; then, if that was the
   last of its quantum, the running task, and the first in line runs.
   */
  lemma TickQueue(s: State, idle: nat, t: State) returns (woken: seq<nat>)
    requires Inv(s, idle) && Step(s, idle, Tick, t)
    ensures forall k, l :: 0 <= k < l < |woken| ==> woken[k] < woken[l]
    ensures forall j: nat :: j in woken <==>
              j < |s.tasks| && s.tasks[j].state == Waiting && 0 < s.tasks[j].wakeTick <= s.now + 1
    ensures s.current < |s.tasks|
    ensures if s.tasks[s.current].ticks < 4 then t.queue == s.queue + woken && t.current == s.current
            else [t.current] + t.queue == s.queue + woken + [s.current]
  {
    hide QueueOk, StacksOk, WakeFrom;
    var u := s.(now := s.now + 1);
    SameQueue(s, u);
    SameStacks(s, u);
    woken := WakeOrder(u, 0, idle);
    ElapseKeeps(s, idle);
    WakeFromKeeps(u, 0, idle);
    if Expired(Elapse(s)) {
      TickSwitches(s, idle);
    }
  }

  /** Choosing the next task puts none to sleep. */
  lemma StaysAwake(s: State, idle: nat, j: nat)
    requires s.current < |s.tasks| && j < |s.tasks| && s.tasks[j].state != Waiting
    ensures |Reschedule(s).tasks| == |s.tasks| && Reschedule(s).tasks[j].state != Waiting
  {
  }

  /**
   * The exit of a task ends exactly one wait, if any: that of its parent, when the parent waits for it or for
   * any child. A parent that merely sleeps waits for any, so it wakes early.
   */
  lemma ExitWakes(s: State, idle: nat, status: int, t: State, j: nat)
    requires Inv(s, idle) && s.current != idle && Step(s, idle, Exit(status), t) && j < |s.tasks|
             && s.tasks[j].state == Waiting
    ensures |t.tasks| == |s.tasks|
    ensures t.tasks[j].state != Waiting <==>
              j == s.tasks[s.current].parent
              && (s.tasks[j].waitingForPid == s.tasks[s.current].pid || s.tasks[j].waitingForPid == -1)
  {
    hide StacksOk, Reschedule, QueueOk;
    TerminateKeeps(s, status, idle);
    var u := Terminate(s, status);
    if u.tasks[j].state == Waiting {
      RescheduleSkips(u, j);
    } else {
      StaysAwake(u, idle, j);
    }
  }

  // ---------------------------------------------------------------- how long a sleep lasts

  /**
   A sleep ends no earlier than asked, and within a tick of it, unless the request is less than ten milliseconds below
   2^32: then, and only then, the count wraps around and the sleep lasts one tick.
   */
  lemma DelayIs(ms: nat)
    requires 0 < ms < 0x1_0000_0000
    ensures DelayTicks(ms) >= 1
    ensures 10 * DelayTicks(ms) >= ms <==> ms <= 0xFFFF_FFF6
    ensures if ms <= 0xFFFF_FFF6 then 10 * (DelayTicks(ms) - 1) < ms else DelayTicks(ms) == 1
  {
  }

  /** The running task goes to sleep until that many ticks have passed. */
  lemma SleepStarts(s: State, idle: nat, ms: nat, t: State)
    requires Inv(s, idle) && s.current != idle && ms > 0 && Step(s, idle, Sleep(ms), t)
    ensures s.current < |t.tasks| && t.now == s.now
    ensures t.tasks[s.current].state == Waiting && t.tasks[s.current].wakeTick == s.now + DelayTicks(ms)
  {
    hide QueueOk, StacksOk, Reschedule, DelayTicks;
    StopKeeps(s, Doze(s, ms), idle);
    RescheduleSkips(Doze(s, ms), s.current);
    SwitchTime(Doze(s, ms));
  }

  lemma SwitchTime(s: State)
    ensures Reschedule(s).now == s.now
  {
  }

  /** A child of entry `j` exits. */
  ghost predicate ChildExits(s: State, a: Action, j: nat) {
    s.current < |s.tasks| && a.Exit? && s.tasks[s.current].parent == j
  }

  /** Until it is due a sleeper sleeps on, whatever happens but the exit of a child. */
  lemma StepSleeps(s: State, idle: nat, a: Action, t: State, j: nat)
    requires Inv(s, idle) && Enabled(s, idle, a) && Step(s, idle, a, t) && !ChildExits(s, a, j)
    requires j < |s.tasks| && s.tasks[j].state == Waiting && s.tasks[j].wakeTick > 0
    ensures |t.tasks| == |s.tasks| && t.now == s.now + (if a.Tick? then 1 else 0)
    ensures t.tasks[j].state == Waiting <==> !(a.Tick? && s.tasks[j].wakeTick <= t.now)
    ensures t.tasks[j].state == Waiting ==> t.tasks[j].wakeTick == s.tasks[j].wakeTick
  {
    hide QueueOk, StacksOk, Reschedule, Elapse, Doze, Terminate, WakeFrom, FindChild, DelayTicks;
    match a
    case Tick => TickSleeps(s, idle, t, j);
    case Yield =>
      ScheduleKeeps(s, idle);
      RescheduleSkips(s, j);
      SwitchTime(s);
    case Sleep(ms) => DozeSleeps(s, idle, ms, j);
    case Exit(status) => ExitSleeps(s, idle, status, j);
    case NewTask(kind, memory) => AllocKeeps(s, idle);
    case ForkTask(memory) => AllocKeeps(s, idle);
    case Reap(pid) =>
  }

  lemma TickSleeps(s: State, idle: nat, t: State, j: nat)
    requires Inv(s, idle) && Step(s, idle, Tick, t)
    requires j < |s.tasks| && s.tasks[j].state == Waiting && s.tasks[j].wakeTick > 0
    ensures |t.tasks| == |s.tasks| && t.now == s.now + 1
    ensures t.tasks[j].state == Waiting <==> s.tasks[j].wakeTick > t.now
    ensures t.tasks[j].state == Waiting ==> t.tasks[j].wakeTick == s.tasks[j].wakeTick
  {
    hide QueueOk, StacksOk, Reschedule, WakeFrom, Elapse;
    TickWakes(s, idle, t, j);
    NoOversleeping(s, idle, t, j);
    if s.tasks[j].wakeTick > s.now + 1 {
      ElapseSleeps(s, idle, j);
      ElapseKeeps(s, idle);
      if Expired(Elapse(s)) {
        RescheduleSkips(Elapse(s), j);
      }
    }
  }

  lemma ElapseSleeps(s: State, idle: nat, j: nat)
    requires Inv(s, idle) && j < |s.tasks| && s.tasks[j].state == Waiting && s.tasks[j].wakeTick > s.now + 1
    ensures |Elapse(s).tasks| == |s.tasks| && Elapse(s).tasks[j] == s.tasks[j]
  {
    hide QueueOk, StacksOk, WakeFrom;
    var u := s.(now := s.now + 1);
    SameQueue(s, u);
    SameStacks(s, u);
    WakesNot(u, 0, idle, j);
  }

  lemma {:induction false} WakesNot(s: State, i: nat, idle: nat, j: nat)
    requires Inv(s, idle) && i <= |s.tasks| && j < |s.tasks| && !Due(s, j)
    ensures WakeFrom(s, i).tasks[j] == s.tasks[j]
    decreases |s.tasks| - i
  {
    hide QueueOk, StacksOk, RunningOk;
    if i < |s.tasks| {
      WakeKeeps(s, i, idle);
      WakesNot(Wake(s, i), i + 1, idle, j);
    }
  }

  lemma DozeSleeps(s: State, idle: nat, ms: nat, j: nat)
    requires Inv(s, idle) && s.current != idle && j < |s.tasks| && s.tasks[j].state == Waiting
    ensures var t := Reschedule(Doze(s, ms)); |t.tasks| == |s.tasks| && t.tasks[j] == s.tasks[j] && t.now == s.now
  {
    hide QueueOk, StacksOk, Reschedule, DelayTicks;
    if ms > 0 {
      StopKeeps(s, Doze(s, ms), idle);
    }
    RescheduleSkips(Doze(s, ms), j);
    SwitchTime(Doze(s, ms));
  }

  lemma ExitSleeps(s: State, idle: nat, status: int, j: nat)
    requires Inv(s, idle) && s.current != idle && j < |s.tasks| && s.tasks[j].state == Waiting
    requires s.tasks[s.current].parent != j
    ensures var t := Reschedule(Terminate(s, status));
            |t.tasks| == |s.tasks| && t.tasks[j] == s.tasks[j] && t.now == s.now
  {
    hide QueueOk, StacksOk, Reschedule;
    TerminateKeeps(s, status, idle);
    RescheduleSkips(Terminate(s, status), j);
    SwitchTime(Terminate(s, status));
  }

  /**
   A task that goes to sleep sleeps for exactly the ticks of its delay, over whatever run, unless a child of it exits:
   it waits in every state before its time, and the tick that brings its time ends the wait.
   */
  lemma {:induction false} SleepLasts(ss: seq<State>, acts: seq<Action>, idle: nat, k: nat, ms: nat, l: nat)
    requires Run(ss, acts, idle) && k < l < |ss| && acts[k] == Sleep(ms) && ms > 0
    requires forall m :: k < m < l ==> !ChildExits(ss[m], acts[m], ss[k].current)
    requires forall m :: k < m < l ==> ss[m].now < ss[k].now + DelayTicks(ms)
    ensures var j := ss[k].current;
            && j < |ss[l].tasks|
            && (ss[l].now < ss[k].now + DelayTicks(ms) ==>
                  ss[l].tasks[j].state == Waiting && ss[l].tasks[j].wakeTick == ss[k].now + DelayTicks(ms))
            && (ss[l].now >= ss[k].now + DelayTicks(ms) ==> ss[l].tasks[j].state != Waiting)
  {
    hide Inv, Step, Enabled, DelayTicks, ChildExits;
    RunKeeps(ss, acts, idle, l - 1);
    assert Follows(ss, acts, idle, l - 1);
    if l == k + 1 {
      SleepBegins(ss[k], idle, ms, ss[l]);
    } else {
      SleepLasts(ss, acts, idle, k, ms, l - 1);
      StepSleeps(ss[l - 1], idle, acts[l - 1], ss[l], ss[k].current);
    }
  }

  lemma SleepBegins(s: State, idle: nat, ms: nat, t: State)
    requires Inv(s, idle) && Enabled(s, idle, Sleep(ms)) && Step(s, idle, Sleep(ms), t) && ms > 0
    ensures s.current < |t.tasks| && t.now == s.now && DelayTicks(ms) > 0
    ensures t.tasks[s.current].state == Waiting && t.tasks[s.current].wakeTick == s.now + DelayTicks(ms)
  {
    SleepStarts(s, idle, ms, t);
  }

  // ---------------------------------------------------------------- a sleep cut short

  function IdleTask(x: TaskState): Info {
    FreshInfo(1, x, StackBase(0))
  }

  function Parent(x: TaskState, children: seq<nat>, wakeTick: nat, waitingForPid: int): Info {
    FreshInfo(2, x, StackBase(1)).(
      kind := UserProcess, children := children, wakeTick := wakeTick, waitingForPid := waitingForPid)
  }

  function Child(x: TaskState, status: int): Info {
    FreshInfo(3, x, StackBase(2)).(kind := UserProcess, parent := 1, exitStatus := status)
  }

  /** A user process is started, forks and sleeps for a second; the idle task yields to the child, which exits. */
  function StoryActions(status: int): seq<Action> {
    [NewTask(UserProcess, true), Yield, ForkTask(true), Sleep(1000), Yield, Exit(status)]
  }

  /** The state `k` actions after start-up. */
  function Scene(now: nat, status: int, k: nat): State
    requires k <= 6
  {
    if k == 0 then Booted(now)
    else if k == 1 then Table([IdleTask(Running), Parent(Ready, [], 0, -1)], [1], 0, 2, 3, now)
    else if k == 2 then Table([IdleTask(Ready), Parent(Running, [], 0, -1)], [0], 1, 2, 3, now)
    else if k == 3 then Table([IdleTask(Ready), Parent(Running, [2], 0, -1), Child(Ready, 0)], [0, 2], 1, 3, 4, now)
    else if k == 4 then
      Table([IdleTask(Running), Parent(Waiting, [2], now + 100, -1), Child(Ready, 0)], [2], 0, 3, 4, now)
    else if k == 5 then
      Table([IdleTask(Ready), Parent(Waiting, [2], now + 100, -1), Child(Running, 0)], [0], 2, 3, 4, now)
    else Table([IdleTask(Running), Parent(Ready, [2], now + 100, 0), Child(Zombie, status)], [1], 0, 3, 4, now)
  }

  lemma ProcessStarts(now: nat, status: int)
    ensures Create(Scene(now, status, 0), UserProcess, true) == Scene(now, status, 1)
  {
    var s := Scene(now, status, 0);
    assert s.tasks[0] == IdleTask(Running) && s.tasks[1] == EmptyInfo() && s.slots[0] && !s.slots[1];
    assert FirstUnused(s.tasks, 0) == 1 && FirstSlot(s.slots, 0) == 1;
    SameTable(Create(s, UserProcess, true), Scene(now, status, 1));
  }

  lemma IdleYields(now: nat, status: int)
    ensures Reschedule(Scene(now, status, 1)) == Scene(now, status, 2)
    ensures Reschedule(Scene(now, status, 4)) == Scene(now, status, 5)
  {
    SameTable(Reschedule(Scene(now, status, 1)), Scene(now, status, 2));
    SameTable(Reschedule(Scene(now, status, 4)), Scene(now, status, 5));
  }

  lemma ProcessForks(now: nat, status: int)
    ensures Fork(Scene(now, status, 2), true) == Scene(now, status, 3)
  {
    var s := Scene(now, status, 2);
    assert s.tasks[0] == IdleTask(Ready) && s.tasks[1].state == Running && s.tasks[2] == EmptyInfo();
    assert s.slots[0] && s.slots[1] && !s.slots[2];
    assert FirstUnused(s.tasks, 0) == 2 && FirstSlot(s.slots, 0) == 2;
    SameTable(Fork(s, true), Scene(now, status, 3));
  }

  lemma ProcessSleeps(now: nat, status: int)
    ensures Reschedule(Doze(Scene(now, status, 3), 1000)) == Scene(now, status, 4)
  {
    SameTable(Reschedule(Doze(Scene(now, status, 3), 1000)), Scene(now, status, 4));
  }

  lemma StoryExits(now: nat, status: int)
    ensures Reschedule(Terminate(Scene(now, status, 5), status)) == Scene(now, status, 6)
  {
    SameTable(Reschedule(Terminate(Scene(now, status, 5), status)), Scene(now, status, 6));
  }

  function Story(now: nat, status: int): seq<State> {
    seq(7, k requires 0 <= k < 7 => Scene(now, status, k))
  }

  lemma StoryFollows(now: nat, status: int, k: nat)
    requires k < 6
    ensures Follows(Story(now, status), StoryActions(status), 0, k)
  {
    hide Inv, Scene, Create, Fork, Doze, Terminate, Reschedule, Elapse, Expired, FindChild, Bury;
    StoryCurrent(now, status);
    assert Story(now, status)[k] == Scene(now, status, k) && Story(now, status)[k + 1] == Scene(now, status, k + 1);
    if k == 0 {
      ProcessStarts(now, status);
    } else if k == 1 || k == 4 {
      IdleYields(now, status);
    } else if k == 2 {
      ProcessForks(now, status);
    } else if k == 3 {
      ProcessSleeps(now, status);
    } else {
      StoryExits(now, status);
    }
  }

  lemma StoryCurrent(now: nat, status: int)
    ensures Scene(now, status, 3).current == 1 && Scene(now, status, 5).current == 2
    ensures forall k: nat :: k <= 6 ==> Scene(now, status, k).current < |Scene(now, status, k).tasks|
  {
  }

  /**
   A run from start-up in which a parent that has never waited for a child sleeps for a hundred ticks, and is ready
   again when the child exits, at the same tick.
   */
  lemma SleeperWokenEarly(now: nat, status: int)
    ensures Run(Story(now, status), StoryActions(status), 0) && Story(now, status)[0] == Booted(now)
    ensures var s := Story(now, status)[4];
            s.tasks[1].state == Waiting && s.tasks[1].wakeTick == now + 100 && s.tasks[1].waitingForPid == -1
    ensures var t := Story(now, status)[6]; t.tasks[1].state == Ready && t.now == now
  {
    hide Follows, Inv;
    BootedOk(now);
    forall k | 0 <= k < 6
      ensures Follows(Story(now, status), StoryActions(status), 0, k)
    {
      StoryFollows(now, status, k);
    }
  }

  // ---------------------------------------------------------------- the quantum

  /** No action of the run gives the processor up. */
  ghost predicate Stays(acts: seq<Action>) {
    forall a :: a in acts ==> !a.Yield? && !a.Sleep? && !a.Exit?
  }

  lemma {:induction false} TicksBack(acts: seq<Action>)
    requires acts != []
    ensures Ticks(acts) == Ticks(acts[..|acts| - 1]) + Cost(acts[|acts| - 1])
  {
    if |acts| > 1 {
      TicksBack(acts[1..]);
      assert acts[1..][..|acts| - 2] == acts[..|acts| - 1][1..];
    }
  }

  /** One step of a task that does not give the processor up. */
  lemma StayStep(s: State, idle: nat, a: Action, t: State)
    requires Inv(s, idle) && Enabled(s, idle, a) && Step(s, idle, a, t) && !a.Yield? && !a.Sleep? && !a.Exit?
    ensures s.current < |s.tasks| && t.current < |t.tasks|
    ensures s.tasks[s.current].ticks + Cost(a) < 5 ==>
              && t.current == s.current && t.tasks[t.current].ticks == s.tasks[s.current].ticks + Cost(a)
              && s.queue <= t.queue
    ensures s.tasks[s.current].ticks + Cost(a) >= 5 ==>
              t.tasks[t.current].ticks == 0 && (s.queue != [] ==> t.current == s.queue[0])
  {
    hide QueueOk, StacksOk, Reschedule, Elapse, Create, Fork, Bury, FindChild;
    match a
    case Tick =>
      ElapseKeeps(s, idle);
      if Expired(Elapse(s)) {
        TickSwitches(s, idle);
      }
    case NewTask(kind, memory) => CreateKeeps(s, kind, memory, idle);
    case ForkTask(memory) => ForkKeeps(s, memory, idle);
    case Reap(pid) =>
      var c := FindChild(s.tasks, s.tasks[s.current].children, pid);
      if c != NIL {
        BuryKeeps(s, c, idle);
      }
  }

  /** A task that does not give the processor up keeps it for five ticks, not counting those it has had. */
  lemma {:induction false} QuantumKept(ss: seq<State>, acts: seq<Action>, idle: nat)
    requires Run(ss, acts, idle) && Stays(acts) && ss[0].current < |ss[0].tasks|
    requires ss[0].tasks[ss[0].current].ticks + Ticks(acts) < 5
    ensures var s, t := ss[0], ss[|acts|];
            && t.current == s.current < |t.tasks| && s.queue <= t.queue
            && t.tasks[t.current].ticks == s.tasks[s.current].ticks + Ticks(acts)
  {
    hide Inv, Step, Enabled;
    if acts != [] {
      var n := |acts| - 1;
      TicksBack(acts);
      RunFront(ss, acts, idle);
      QuantumKept(ss[..n + 1], acts[..n], idle);
      RunKeeps(ss, acts, idle, n);
      assert Follows(ss, acts, idle, n) && acts[n] in acts;
      StayStep(ss[n], idle, acts[n], ss[n + 1]);
    }
  }

  lemma RunFront(ss: seq<State>, acts: seq<Action>, idle: nat)
    requires Run(ss, acts, idle) && acts != []
    ensures Run(ss[..|acts|], acts[..|acts| - 1], idle)
  {
    var states, done := ss[..|acts|], acts[..|acts| - 1];
    forall k | 0 <= k < |done|
      ensures Follows(states, done, idle, k)
    {
      assert Follows(ss, acts, idle, k);
    }
  }

  /** And with the fifth tick it loses it to the task that was first in line at the start. */
  lemma {:induction false} QuantumEnds(ss: seq<State>, acts: seq<Action>, idle: nat)
    requires Run(ss, acts, idle) && Stays(acts) && ss[0].current < |ss[0].tasks| && ss[0].queue != []
    requires acts != [] && acts[|acts| - 1].Tick? && ss[0].tasks[ss[0].current].ticks + Ticks(acts) == 5
    ensures var t := ss[|acts|]; t.current == ss[0].queue[0] < |t.tasks| && t.tasks[t.current].ticks == 0
  {
    hide Inv, Step, Enabled;
    var n := |acts| - 1;
    TicksBack(acts);
    RunFront(ss, acts, idle);
    QuantumKept(ss[..n + 1], acts[..n], idle);
    RunKeeps(ss, acts, idle, n);
    assert Follows(ss, acts, idle, n) && acts[n] in acts;
    StayStep(ss[n], idle, acts[n], ss[n + 1]);
  }

  // ---------------------------------------------------------------- what joins

  /** What a new task is, in full: the lowest unused entry and the lowest free stack slot, at the end of the queue. */
  lemma NewTaskIs(s: State, idle: nat, kind: TaskType, t: State, i: nat, j: nat)
    requires Inv(s, idle) && Step(s, idle, NewTask(kind, true), t) && i < 16 && j < 16
    requires s.tasks[i].state == Unused && forall k :: 0 <= k < i ==> s.tasks[k].state != Unused
    requires !s.slots[j] && forall k :: 0 <= k < j ==> s.slots[k]
    ensures var entry := Info(s.nextPid, Ready, kind, 5, 0, 0xC020_0000 + 0x4000 * j, NIL, [], -1, 0, 0);
            t == State(s.tasks[i := entry], s.queue + [i], s.current, s.slots[j := true], s.nextPid + 1, s.now)
  {
    assert FirstUnused(s.tasks, 0) == i && FirstSlot(s.slots, 0) == j;
  }

  /** A forked process is one more, with the running task as its parent; it is the youngest of its children. */
  lemma ForkIs(s: State, idle: nat, t: State, i: nat, j: nat)
    requires Inv(s, idle) && Step(s, idle, ForkTask(true), t) && s.tasks[s.current].kind == UserProcess
    requires i < 16 && s.tasks[i].state == Unused && forall k :: 0 <= k < i ==> s.tasks[k].state != Unused
    requires j < 16 && !s.slots[j] && forall k :: 0 <= k < j ==> s.slots[k]
    ensures var entry := Info(s.nextPid, Ready, UserProcess, 5, 0, 0xC020_0000 + 0x4000 * j, s.current, [], -1, 0, 0);
            var me := s.tasks[s.current].(children := [i] + s.tasks[s.current].children);
            t == State(s.tasks[i := entry][s.current := me], s.queue + [i], s.current, s.slots[j := true],
                       s.nextPid + 1, s.now)
  {
    assert FirstUnused(s.tasks, 0) == i && FirstSlot(s.slots, 0) == j;
    hide QueueOk, StacksOk;
  }

  /** Yielding goes round: the first in line runs, and the one that yields is last. */
  lemma YieldIs(s: State, idle: nat, t: State)
    requires Inv(s, idle) && Step(s, idle, Yield, t) && s.queue != []
    ensures t.current == s.queue[0] < |t.tasks| && t.queue == s.queue[1..] + [s.current] && t.now == s.now
    ensures t.tasks[t.current].state == Running && t.tasks[t.current].ticks == 0
  {
  }

  // ---------------------------------------------------------------- bounded waiting

  /** How many ticks can pass at most before the task at index `k` of the queue runs. */
  ghost function Potential(s: State, k: nat): int
    requires s.current < |s.tasks|
  {
    TASK_QUANTUM_DEFAULT - s.tasks[s.current].ticks + TASK_QUANTUM_DEFAULT * k
  }

  function Cost(a: Action): nat {
    if a.Tick? then 1 else 0
  }

  /** After a step the task at index `k` runs, or stands at index `l` with no more to wait, and less after a tick. */
  ghost predicate Advanced(s: State, k: nat, a: Action, t: State)
    requires k < |s.queue| && s.current < |s.tasks| && t.current < |t.tasks|
  {
    || t.current == s.queue[k]
    || exists l: nat :: l < |t.queue| && t.queue[l] == s.queue[k] && Potential(t, l) + Cost(a) <= Potential(s, k)
  }

  lemma AdvancedBy(s: State, k: nat, a: Action, t: State, l: nat)
    requires k < |s.queue| && s.current < |s.tasks| && t.current < |t.tasks|
    requires l < |t.queue| && t.queue[l] == s.queue[k] && Potential(t, l) + Cost(a) <= Potential(s, k)
    ensures Advanced(s, k, a, t)
  {
  }

  /** When the processor is given up, every task in the queue moves up and the first one runs. */
  lemma SwitchAdvances(s: State, u: State, k: nat, a: Action)
    requires RunningOk(s) && k < |s.queue| && s.queue <= u.queue && u.current < |u.tasks|
    requires u.queue[0] < |u.tasks| && SelectNext(u).current < |u.tasks|
    requires a.Tick? ==> s.tasks[s.current].ticks == TASK_QUANTUM_DEFAULT - 1
    ensures Advanced(s, k, a, SelectNext(u))
  {
    var t := SelectNext(u);
    if k > 0 {
      assert t.queue[k - 1] == s.queue[k];
      AdvancedBy(s, k, a, t, k - 1);
    }
  }

  /** Every step, whichever it is, brings every waiting task closer to the processor or leaves it where it is. */
  lemma StepAdvances(s: State, idle: nat, a: Action, t: State, k: nat)
    requires Inv(s, idle) && Enabled(s, idle, a) && Step(s, idle, a, t) && k < |s.queue|
    ensures t.current < |t.tasks| && Advanced(s, k, a, t)
  {
    hide QueueOk, StacksOk, Reschedule, Elapse, Doze, Terminate, Create, Fork, Bury, FindChild, Advanced;
    match a
    case Tick =>
      ElapseKeeps(s, idle);
      if Expired(Elapse(s)) {
        TickSwitches(s, idle);
        SwitchAdvances(s, Enqueue(Elapse(s), s.current), k, a);
      } else {
        AdvancedBy(s, k, a, t, k);
      }
    case Yield =>
      ScheduleKeeps(s, idle);
      SwitchAdvances(s, Requeue(s), k, a);
    case Sleep(ms) => SleepAdvances(s, idle, ms, k);
    case Exit(status) => ExitAdvances(s, idle, status, k);
    case NewTask(kind, memory) =>
      CreateKeeps(s, kind, memory, idle);
      AdvancedBy(s, k, a, t, k);
    case ForkTask(memory) =>
      ForkKeeps(s, memory, idle);
      AdvancedBy(s, k, a, t, k);
    case Reap(pid) =>
      var c := FindChild(s.tasks, s.tasks[s.current].children, pid);
      if c != NIL {
        BuryKeeps(s, c, idle);
      }
      AdvancedBy(s, k, a, t, k);
  }

  lemma SleepAdvances(s: State, idle: nat, ms: nat, k: nat)
    requires Inv(s, idle) && s.current != idle && k < |s.queue|
    ensures var t := Reschedule(Doze(s, ms)); t.current < |t.tasks| && Advanced(s, k, Sleep(ms), t)
  {
    hide QueueOk, StacksOk, Reschedule, Advanced;
    var d := Doze(s, ms);
    if ms > 0 {
      StopKeeps(s, d, idle);
    }
    ScheduleKeeps(d, idle);
    SwitchAdvances(s, Requeue(d), k, Sleep(ms));
  }

  lemma ExitAdvances(s: State, idle: nat, status: int, k: nat)
    requires Inv(s, idle) && s.current != idle && k < |s.queue|
    ensures var t := Reschedule(Terminate(s, status)); t.current < |t.tasks| && Advanced(s, k, Exit(status), t)
  {
    hide QueueOk, StacksOk, Reschedule, Advanced;
    TerminateKeeps(s, status, idle);
    var d := Terminate(s, status);
    ScheduleKeeps(d, idle);
    SwitchAdvances(s, Requeue(d), k, Exit(status));
  }

  /** The timer ticks among the first `n` actions. */
  ghost function Ticks(acts: seq<Action>): nat {
    if acts == [] then 0 else Cost(acts[0]) + Ticks(acts[1..])
  }

  /** The task runs at some point after the start. */
  ghost predicate Runs(ss: seq<State>, task: nat) {
    exists m :: 0 < m < |ss| && ss[m].current == task
  }

  lemma RunsLater(ss: seq<State>, task: nat)
    requires |ss| > 0 && Runs(ss[1..], task)
    ensures Runs(ss, task)
  {
    var m :| 0 < m < |ss[1..]| && ss[1..][m].current == task;
    assert ss[m + 1].current == task;
  }

  lemma RunTail(ss: seq<State>, acts: seq<Action>, idle: nat)
    requires Run(ss, acts, idle) && acts != []
    ensures Run(ss[1..], acts[1..], idle)
  {
    hide Inv, Step, Enabled;
    RunKeeps(ss, acts, idle, 1);
    forall k | 0 <= k < |acts[1..]|
      ensures Follows(ss[1..], acts[1..], idle, k)
    {
      assert Follows(ss, acts, idle, k + 1);
    }
  }

  /** A ready task runs before as many ticks have passed as its place in the queue allows. */
  lemma {:induction false} WaitsAtMost(ss: seq<State>, acts: seq<Action>, idle: nat, k: nat)
    requires Run(ss, acts, idle) && k < |ss[0].queue| && ss[0].current < |ss[0].tasks|
    requires Ticks(acts) >= Potential(ss[0], k) > 0
    ensures Runs(ss, ss[0].queue[k])
    decreases |acts|
  {
    hide Inv, Step, Enabled, Advanced;
    assert acts != [];
    var task := ss[0].queue[k];
    assert Follows(ss, acts, idle, 0);
    StepAdvances(ss[0], idle, acts[0], ss[1], k);
    var l := Place(ss[0], k, acts[0], ss[1]);
    if l == |ss[1].queue| {
      assert ss[1].current == task;
    } else {
      RunTail(ss, acts, idle);
      RunKeeps(ss, acts, idle, 1);
      PotentialPositive(ss[1], idle, l);
      WaitsAtMost(ss[1..], acts[1..], idle, l);
      RunsLater(ss, task);
    }
  }

  /** Where the task stands after a step; the length of the queue if it runs. */
  lemma Place(s: State, k: nat, a: Action, t: State) returns (l: nat)
    requires k < |s.queue| && s.current < |s.tasks| && t.current < |t.tasks| && Advanced(s, k, a, t)
    ensures l <= |t.queue|
    ensures l == |t.queue| ==> t.current == s.queue[k]
    ensures l < |t.queue| ==> t.queue[l] == s.queue[k] && Potential(t, l) + Cost(a) <= Potential(s, k)
  {
    if t.current == s.queue[k] {
      l := |t.queue|;
    } else {
      l :| l < |t.queue| && t.queue[l] == s.queue[k] && Potential(t, l) + Cost(a) <= Potential(s, k);
    }
  }

  lemma PotentialPositive(s: State, idle: nat, k: nat)
    requires Inv(s, idle)
    ensures s.current < |s.tasks| && 0 < Potential(s, k) <= TASK_QUANTUM_DEFAULT * (k + 1)
  {
  }

  /** The queue never holds more than fifteen tasks: the running one is not in it. */
  lemma QueueShort(s: State, idle: nat)
    requires Inv(s, idle)
    ensures |s.queue| <= TASK_MAX - 1
  {
    var all := Below(TASK_MAX);
    var queued := set k | 0 <= k < |s.queue| :: s.queue[k];
    CountDistinct(s.queue);
    assert queued <= all - {s.current};
    Subset(queued, all - {s.current});
  }

  /** The numbers below `n`. */
  ghost function Below(n: nat): (r: set<nat>)
    ensures |r| == n && forall i: nat :: i in r <==> i < n
  {
    if n == 0 then {} else Below(n - 1) + {n - 1}
  }

  lemma {:induction false} CountDistinct(q: seq<nat>)
    requires forall k, l :: 0 <= k < l < |q| ==> q[k] != q[l]
    ensures |set k | 0 <= k < |q| :: q[k]| == |q|
  {
    if q != [] {
      var p := q[..|q| - 1];
      CountDistinct(p);
      assert (set k | 0 <= k < |q| :: q[k]) == (set k | 0 <= k < |p| :: p[k]) + {q[|q| - 1]};
      assert q[|q| - 1] !in (set k | 0 <= k < |p| :: p[k]);
    }
  }

  lemma {:induction false} Subset(a: set<nat>, b: set<nat>)
    requires a <= b
    ensures |a| <= |b|
  {
    if a != {} {
      var x :| x in a;
      Subset(a - {x}, b - {x});
    }
  }

  /**
   Bounded waiting: whatever else happens, a ready task at index `k` runs within 5 * (k + 1) ticks, and so within 75.
   */
  lemma {:induction false} BoundedWaiting(ss: seq<State>, acts: seq<Action>, idle: nat, k: nat)
    requires Run(ss, acts, idle) && k < |ss[0].queue|
    requires Ticks(acts) >= TASK_QUANTUM_DEFAULT * (k + 1) || Ticks(acts) >= 75
    ensures Runs(ss, ss[0].queue[k])
  {
    hide QueueOk, StacksOk, Runs;
    RunKeeps(ss, acts, idle, 0);
    QueueShort(ss[0], idle);
    PotentialPositive(ss[0], idle, k);
    WaitsAtMost(ss, acts, idle, k);
  }
}
