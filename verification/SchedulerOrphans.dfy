/**
 A run from start-up in which a process ends the sleep of a stranger: its parent was reaped before it, and another
 process has taken the entry that it still names as its parent.
 */
module SchedulerOrphans {
  import opened SchedulerSteps
  import opened SchedulerRuns
  import opened SchedulerFamilies

  /** A user process with a stack of its own. */
  function Process(pid: nat, slot: nat, x: TaskState, parent: nat, children: seq<nat>, wakeTick: nat): Info {
    FreshInfo(pid, x, StackBase(slot)).(kind := UserProcess, parent := parent, children := children,
                                        wakeTick := wakeTick)
  }

  /** The entry of the middle process once it was reaped. */
  function Reaped(): Info {
    Process(3, 2, Unused, NIL, [3], 0).(kind := Kernel, stackBase := 0)
  }

  /**
   The first process forks the second, which forks the third and exits. The first reaps it, a fourth process takes its
   entry, and first and fourth go to sleep for a second each. Then the third exits.
   */
  function OrphanActions(): seq<Action> {
    [NewTask(UserProcess, true), Yield, ForkTask(true), Yield, Yield, ForkTask(true), Exit(0), Reap(3),
     NewTask(UserProcess, true), Sleep(1000), Yield, Yield, Sleep(1000), Yield, Exit(0)]
  }

  /** Up to the reaping. */
  function Before(now: nat, k: nat): State
    requires k <= 7
  {
    var idle, running := IdleTask(Ready), IdleTask(Running);
    if k == 0 then Booted(now)
    else if k == 1 then Table([running, Process(2, 1, Ready, NIL, [], 0)], [1], 0, 2, 3, now)
    else if k == 2 then Table([idle, Process(2, 1, Running, NIL, [], 0)], [0], 1, 2, 3, now)
    else
      var second := Process(3, 2, Ready, 1, [], 0);
      if k == 3 then Table([idle, Process(2, 1, Running, NIL, [2], 0), second], [0, 2], 1, 3, 4, now)
      else
        var first := Process(2, 1, Ready, NIL, [2], 0);
        if k == 4 then Table([running, first, second], [2, 1], 0, 3, 4, now)
        else if k == 5 then Table([idle, first, Process(3, 2, Running, 1, [], 0)], [1, 0], 2, 3, 4, now)
        else
          var third := Process(4, 3, Ready, 2, [], 0);
          if k == 6 then Table([idle, first, Process(3, 2, Running, 1, [3], 0), third], [1, 0, 3], 2, 4, 5, now)
          else
            Table([idle, first.(state := Running), Process(3, 2, Zombie, 1, [3], 0), third], [0, 3], 1, 4, 5, now)
  }

  /** From the reaping on. */
  function After(now: nat, k: nat): State
    requires 8 <= k <= 15
  {
    var idle, running, awake := IdleTask(Ready), IdleTask(Running), Process(2, 1, Running, NIL, [], 0);
    var third := Process(4, 3, Ready, 2, [], 0);
    if k == 8 then
      var s := Table([idle, awake, Reaped(), third], [0, 3], 1, 4, 5, now); s.(slots := s.slots[2 := false])
    else
      var fourth := Process(5, 2, Ready, NIL, [], 0);
      if k == 9 then Table([idle, awake, fourth, third], [0, 3, 2], 1, 4, 6, now)
      else
        var first := Process(2, 1, Waiting, NIL, [], now + 100);
        if k == 10 then Table([running, first, fourth, third], [3, 2], 0, 4, 6, now)
        else if k == 11 then Table([idle, first, fourth, third.(state := Running)], [2, 0], 3, 4, 6, now)
        else if k == 12 then Table([idle, first, fourth.(state := Running), third], [0, 3], 2, 4, 6, now)
        else
          var asleep := Process(5, 2, Waiting, NIL, [], now + 100);
          if k == 13 then Table([running, first, asleep, third], [3], 0, 4, 6, now)
          else if k == 14 then Table([idle, first, asleep, third.(state := Running)], [0], 3, 4, 6, now)
          else
            Table([running, first, asleep.(state := Ready, waitingForPid := 0), third.(state := Zombie)], [2], 0, 4, 6,
                  now)
  }

  function Part(now: nat, k: nat): State
    requires k <= 15
  {
    if k <= 7 then Before(now, k) else After(now, k)
  }

  function OrphanRun(now: nat): seq<State> {
    seq(16, k requires 0 <= k < 16 => Part(now, k))
  }

  // ---------------------------------------------------------------- the steps

  lemma FirstStarts(now: nat)
    ensures Create(Before(now, 0), UserProcess, true) == Before(now, 1)
  {
    var s := Before(now, 0);
    assert s.tasks[0].state != Unused && s.slots[0] && s.tasks[1].state == Unused && !s.slots[1];
    assert FirstUnused(s.tasks, 0) == 1 && FirstSlot(s.slots, 0) == 1;
    SameTable(Create(s, UserProcess, true), Before(now, 1));
  }

  lemma FourthStarts(now: nat)
    ensures Create(After(now, 8), UserProcess, true) == After(now, 9)
  {
    var s := After(now, 8);
    assert forall j :: 0 <= j < 2 ==> s.tasks[j].state != Unused && s.slots[j];
    assert s.tasks[2].state == Unused && !s.slots[2];
    assert FirstUnused(s.tasks, 0) == 2 && FirstSlot(s.slots, 0) == 2;
    SameTable(Create(s, UserProcess, true), After(now, 9));
  }

  lemma FirstForks(now: nat)
    ensures Fork(Before(now, 2), true) == Before(now, 3)
  {
    var s := Before(now, 2);
    assert forall j :: 0 <= j < 2 ==> s.tasks[j].state != Unused && s.slots[j];
    assert s.tasks[2].state == Unused && !s.slots[2];
    assert FirstUnused(s.tasks, 0) == 2 && FirstSlot(s.slots, 0) == 2;
    SameTable(Fork(s, true), Before(now, 3));
  }

  lemma SecondForks(now: nat)
    ensures Fork(Before(now, 5), true) == Before(now, 6)
  {
    var s := Before(now, 5);
    assert forall j :: 0 <= j < 3 ==> s.tasks[j].state != Unused && s.slots[j];
    assert s.tasks[3].state == Unused && !s.slots[3];
    assert FirstUnused(s.tasks, 0) == 3 && FirstSlot(s.slots, 0) == 3;
    SameTable(Fork(s, true), Before(now, 6));
  }

  lemma YieldsBefore(now: nat, k: nat)
    requires k == 1 || k == 3 || k == 4
    ensures Reschedule(Before(now, k)) == Before(now, k + 1)
  {
    SameTable(Reschedule(Before(now, k)), Before(now, k + 1));
  }

  lemma YieldsAfter(now: nat, k: nat)
    requires k == 10 || k == 11 || k == 13
    ensures Reschedule(After(now, k)) == After(now, k + 1)
  {
    SameTable(Reschedule(After(now, k)), After(now, k + 1));
  }

  lemma FirstSleeps(now: nat)
    ensures Reschedule(Doze(After(now, 9), 1000)) == After(now, 10)
  {
    SameTable(Reschedule(Doze(After(now, 9), 1000)), After(now, 10));
  }

  lemma FourthSleeps(now: nat)
    ensures Reschedule(Doze(After(now, 12), 1000)) == After(now, 13)
  {
    SameTable(Reschedule(Doze(After(now, 12), 1000)), After(now, 13));
  }

  lemma SecondExits(now: nat)
    ensures Reschedule(Terminate(Before(now, 6), 0)) == Before(now, 7)
  {
    SameTable(Reschedule(Terminate(Before(now, 6), 0)), Before(now, 7));
  }

  lemma ThirdExits(now: nat)
    ensures Reschedule(Terminate(After(now, 14), 0)) == After(now, 15)
  {
    SameTable(Reschedule(Terminate(After(now, 14), 0)), After(now, 15));
  }

  lemma Reaps(now: nat)
    ensures var s := Part(now, 7); s.current == 1 && s.tasks[1].kind == UserProcess && s.tasks[1].children == [2]
                                   && HasPid(s.tasks, 2, 3) && s.tasks[2].state == Zombie && s.tasks[2].children == [3]
    ensures FindChild(Part(now, 7).tasks, [2], 3) == 2 && Bury(Part(now, 7), 2) == Part(now, 8)
  {
    var s := Part(now, 7);
    assert s.tasks[2] == Process(3, 2, Zombie, 1, [3], 0) && Without([2], 2) == [];
    assert [2][1..] == [];
    SameTable(Bury(s, 2), Part(now, 8));
  }

  lemma Currents(now: nat)
    ensures forall k: nat :: k <= 15 ==> Part(now, k).current < |Part(now, k).tasks|
    ensures forall k: nat :: k == 6 || k == 9 || k == 12 || k == 14 ==> Part(now, k).current != 0
  {
  }

  lemma OrphanFollows(now: nat, k: nat)
    requires k < 15
    ensures Follows(OrphanRun(now), OrphanActions(), 0, k)
  {
    hide Inv, Before, After, Create, Fork, Doze, Terminate, Reschedule, Elapse, Expired, FindChild, Bury;
    Currents(now);
    assert OrphanRun(now)[k] == Part(now, k) && OrphanRun(now)[k + 1] == Part(now, k + 1);
    match OrphanActions()[k]
    case NewTask(_, _) =>
      FirstStarts(now);
      FourthStarts(now);
    case ForkTask(_) =>
      FirstForks(now);
      SecondForks(now);
    case Yield =>
      if k < 8 {
        YieldsBefore(now, k);
      } else {
        YieldsAfter(now, k);
      }
    case Sleep(_) =>
      FirstSleeps(now);
      FourthSleeps(now);
    case Exit(_) =>
      SecondExits(now);
      ThirdExits(now);
    case Reap(_) => Reaps(now);
  }

  /**
   The run follows the rules, reaps a parent of another at its eighth action, and at its last one the exit of the third
   process readies the fourth, which has no children and asked to sleep for another hundred ticks.
   */
  lemma StrangerWoken(now: nat)
    ensures Run(OrphanRun(now), OrphanActions(), 0) && OrphanRun(now)[0] == Booted(now)
    ensures var s := OrphanRun(now)[7]; ReapsParent(s, OrphanActions()[7])
    ensures var s := OrphanRun(now)[14];
            && s.tasks[2].state == Waiting && s.tasks[2].wakeTick == now + 100 && s.tasks[2].children == []
            && s.tasks[s.current].pid == 4 && s.tasks[s.current].parent == 2
    ensures var t := OrphanRun(now)[15]; t.tasks[2].state == Ready && t.now == now
  {
    hide Follows, Inv, Before, After, FirstChild, HasPid;
    BootedOk(now);
    assert Part(now, 0) == Booted(now) by { StartsBooted(now); }
    forall k | 0 <= k < 15
      ensures Follows(OrphanRun(now), OrphanActions(), 0, k)
    {
      OrphanFollows(now, k);
    }
    Reaps(now);
    assert FirstChild(Part(now, 7).tasks, [2], 3, 0) by { FirstReaped(now); }
    Sleepers(now);
  }

  lemma StartsBooted(now: nat)
    ensures Part(now, 0) == Booted(now)
  {
  }

  lemma FirstReaped(now: nat)
    ensures FirstChild(Part(now, 7).tasks, [2], 3, 0)
  {
    Reaps(now);
  }

  lemma Sleepers(now: nat)
    ensures var s := Part(now, 14);
            && s.current < |s.tasks| == TASK_MAX
            && s.tasks[2].state == Waiting && s.tasks[2].wakeTick == now + 100 && s.tasks[2].children == []
            && s.tasks[s.current].pid == 4 && s.tasks[s.current].parent == 2
    ensures var t := Part(now, 15); |t.tasks| == TASK_MAX && t.tasks[2].state == Ready && t.now == now
  {
  }
}
