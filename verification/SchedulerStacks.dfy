/**
 Kernel stacks over whole runs: every stack slot that is taken belongs to a task, or was lost when a task could not be
 created for want of memory. Lost slots never come back, and there are so many tasks fewer.
 */
module SchedulerStacks {
  import opened SchedulerSteps
  import opened SchedulerRuns
  import opened SchedulerFamilies

  ghost predicate Owns(s: State, i: nat, j: nat) {
    i < |s.tasks| && s.tasks[i].state != Unused && s.tasks[i].stackBase == StackBase(j)
  }

  /** The slots that are taken by no one. */
  ghost function Lost(s: State): set<nat> {
    set j: nat | j < |s.slots| && s.slots[j] && forall i: nat :: !Owns(s, i, j)
  }

  ghost function Taken(s: State): set<nat> {
    set j: nat | j < |s.slots| && s.slots[j]
  }

  /** The entries of the table that are in use. */
  ghost function InUse(s: State): set<nat> {
    set i: nat | i < |s.tasks| && s.tasks[i].state != Unused
  }

  /** There is an entry and a stack for a new task, but not the memory that it needs besides. */
  ghost predicate FailsLate(s: State, a: Action) {
    && ((a.NewTask? && !a.memory)
        || (a.ForkTask? && !a.memory && s.current < |s.tasks| && s.tasks[s.current].kind == UserProcess))
    && (exists i :: 0 <= i < |s.tasks| && s.tasks[i].state == Unused) && exists j :: 0 <= j < |s.slots| && !s.slots[j]
  }

  lemma SameLost(s: State, t: State)
    requires SameFamilies(s, t)
    ensures Lost(t) == Lost(s)
  {
    forall i: nat, j: nat
      ensures Owns(t, i, j) <==> Owns(s, i, j)
    {
      assert i < |s.tasks| ==> SameLine(s.tasks[i], t.tasks[i]);
    }
  }

  lemma AllocLost(s: State, idle: nat)
    requires Inv(s, idle)
    ensures var (t, i) := Alloc(s);
            && Lost(t) == Lost(s) && i <= TASK_MAX
            && (i != NIL <==> (exists k :: 0 <= k < |s.tasks| && s.tasks[k].state == Unused)
                              && exists k :: 0 <= k < |s.slots| && !s.slots[k])
            && (i != NIL ==>
                  var j := FirstSlot(s.slots, 0);
                  && j < |s.slots| && !s.slots[j] && t.slots == s.slots[j := true]
                  && s.tasks[i].state == Unused && |t.tasks| == |s.tasks| && t.tasks[i].stackBase == StackBase(j)
                  && t.tasks[i].state == Ready && Owns(t, i, j) && (forall k: nat :: Owns(t, k, j) ==> k == i)
                  && forall k: nat :: k < |s.tasks| && k != i ==> t.tasks[k] == s.tasks[k])
  {
    hide QueueOk;
    var (t, i) := Alloc(s);
    var e, j := FirstUnused(s.tasks, 0), FirstSlot(s.slots, 0);
    if e < TASK_MAX {
      forall k: nat, x: nat | !(k == e && x == j)
        ensures Owns(t, k, x) <==> Owns(s, k, x)
      {
      }
    }
    if i != NIL {
      assert Owns(t, i, j);
      assert forall x: nat :: x != j ==> StackBase(x) != StackBase(j);
    }
  }

  /** A new task owns its slot; one that was given up has lost it. */
  lemma CreateLost(s: State, kind: TaskType, memory: bool, idle: nat)
    requires Inv(s, idle)
    ensures var i := Alloc(s).1;
            Lost(Create(s, kind, memory)) == Lost(s) + (if i == NIL || memory then {} else {FirstSlot(s.slots, 0)})
  {
    AllocLost(s, idle);
    hide Alloc, Inv, Lost, Owns;
    var (t, i) := Alloc(s);
    if i != NIL {
      AfterAlloc(t, Create(s, kind, memory), i, FirstSlot(s.slots, 0), memory);
    }
  }

  lemma ForkLost(s: State, memory: bool, idle: nat)
    requires Inv(s, idle)
    ensures var i := Alloc(s).1;
            Lost(Fork(s, memory)) == Lost(s)
                                     + (if s.tasks[s.current].kind != UserProcess || i == NIL || memory then {}
                                        else {FirstSlot(s.slots, 0)})
  {
    AllocLost(s, idle);
    hide Alloc, Inv, Lost, Owns;
    var (t, i) := Alloc(s);
    if i != NIL && s.tasks[s.current].kind == UserProcess {
      AfterAlloc(t, Fork(s, memory), i, FirstSlot(s.slots, 0), memory);
    }
  }

  /** Entry `i` has slot `j` to itself; it is kept in use or given up, and no stack changes. */
  lemma AfterAlloc(t: State, u: State, i: nat, j: nat, kept: bool)
    requires i < |t.tasks| == |u.tasks| && u.slots == t.slots && j < |t.slots| && t.slots[j]
    requires Owns(t, i, j) && (kept || forall k: nat :: Owns(t, k, j) ==> k == i)
    requires forall k: nat :: k < |t.tasks| ==> u.tasks[k].stackBase == t.tasks[k].stackBase
    requires forall k: nat :: k < |t.tasks| && k != i ==> (u.tasks[k].state == Unused <==> t.tasks[k].state == Unused)
    requires (u.tasks[i].state != Unused) == kept
    ensures Lost(u) == Lost(t) + (if kept then {} else {j})
  {
    forall k: nat, x: nat
      ensures Owns(u, k, x) <==> Owns(t, k, x) && (k != i || kept)
    {
    }
    assert forall x: nat :: Owns(t, i, x) ==> x == j;
  }

  lemma BuryLost(s: State, c: nat, idle: nat)
    requires Inv(s, idle) && c < |s.tasks| && s.tasks[c].state == Zombie
    ensures Lost(Bury(s, c)) == Lost(s)
  {
    var t, slot := Bury(s, c), SlotOf(s.tasks[c].stackBase);
    assert HasStack(s, c);
    hide QueueOk;
    assert forall j: nat :: SlotOf(StackBase(j)) == j;
    assert Owns(s, c, slot);
    forall k: nat, j: nat
      ensures Owns(t, k, j) <==> Owns(s, k, j) && k != c
      ensures Owns(s, k, slot) ==> k == c
    {
    }
    hide SlotOf, StackBase, Bury, StacksOk;
    forall j: nat
      ensures j in Lost(t) <==> j in Lost(s)
    {
      if j == slot {
        assert j !in Lost(s);
      } else {
        assert !Owns(s, c, j) by { OneSlot(s, c, slot, j); }
      }
    }
  }

  lemma OneSlot(s: State, c: nat, i: nat, j: nat)
    requires Owns(s, c, i) && i != j
    ensures !Owns(s, c, j)
  {
  }

  /** A step loses a slot exactly when a creation fails for want of memory; no step gives one back. */
  lemma StepLost(s: State, idle: nat, a: Action, t: State)
    requires Inv(s, idle) && Enabled(s, idle, a) && Step(s, idle, a, t)
    ensures Lost(t) == Lost(s) + (if FailsLate(s, a) then {FirstSlot(s.slots, 0)} else {})
    ensures FailsLate(s, a) ==> FirstSlot(s.slots, 0) !in Taken(s)
  {
    hide QueueOk, StacksOk, Reschedule, Elapse, Doze, Terminate, Create, Fork, Bury, FindChild, SameFamilies, Lost;
    match a
    case Tick =>
      TickSame(s, idle);
      ElapseKeeps(s, idle);
      if Expired(Elapse(s)) {
        ExpirySame(s, idle);
      }
      SameLost(s, t);
    case Yield =>
      SwitchSame(s, idle);
      SameLost(s, t);
    case Sleep(ms) =>
      SleepSame(s, ms, idle);
      SameLost(s, t);
    case Exit(status) =>
      ExitSame(s, status, idle);
      SameLost(s, t);
    case NewTask(kind, memory) =>
      AllocLost(s, idle);
      CreateLost(s, kind, memory, idle);
    case ForkTask(memory) =>
      AllocLost(s, idle);
      ForkLost(s, memory, idle);
    case Reap(pid) =>
      var c := FindChild(s.tasks, s.tasks[s.current].children, pid);
      if c != NIL {
        BuryLost(s, c, idle);
      }
  }

  // ---------------------------------------------------------------- over whole runs

  /** How many creations among the first `k` actions fail for want of memory. */
  ghost function Failures(ss: seq<State>, acts: seq<Action>, k: nat): nat
    requires k <= |acts| < |ss|
  {
    if k == 0 then 0 else Failures(ss, acts, k - 1) + (if FailsLate(ss[k - 1], acts[k - 1]) then 1 else 0)
  }

  /** Each of them costs a stack slot, for good, and nothing else does. */
  lemma {:induction false} SlotsLost(ss: seq<State>, acts: seq<Action>, idle: nat, k: nat)
    requires Run(ss, acts, idle) && k < |ss|
    ensures |Lost(ss[k])| == |Lost(ss[0])| + Failures(ss, acts, k)
    ensures Lost(ss[0]) <= Lost(ss[k])
  {
    hide Inv, Step, Enabled, Lost, FailsLate;
    if k > 0 {
      SlotsLost(ss, acts, idle, k - 1);
      RunKeeps(ss, acts, idle, k - 1);
      assert Follows(ss, acts, idle, k - 1);
      StepLost(ss[k - 1], idle, acts[k - 1], ss[k]);
      LostTaken(ss[k - 1]);
    }
  }

  lemma LostTaken(s: State)
    ensures Lost(s) <= Taken(s)
  {
  }

  /** The taken slots are those of the tasks in use, one each, and the lost ones. */
  lemma SlotsAccounted(s: State, idle: nat)
    requires Inv(s, idle)
    ensures |Taken(s)| == |InUse(s)| + |Lost(s)| && |Taken(s)| <= 16
  {
    hide Inv, Lost, Taken, InUse, SlotOf;
    var used := InUse(s);
    UsedEntries(s);
    var held := set i | i in used :: SlotOf(s.tasks[i].stackBase);
    HeldSlots(s, idle);
    ImageCount(s, used);
    LostTaken(s);
    assert Taken(s) == held + Lost(s) && held !! Lost(s);
    Subset(Taken(s), Below(16));
  }

  lemma UsedEntries(s: State)
    ensures forall i: nat :: i in InUse(s) ==> i < |s.tasks|
  {
  }

  lemma HeldSlots(s: State, idle: nat)
    requires Inv(s, idle)
    ensures forall i: nat, j: nat :: i in InUse(s) && j == SlotOf(s.tasks[i].stackBase) ==>
              j in Taken(s) && j !in Lost(s)
    ensures forall j: nat :: j in Taken(s) && j !in Lost(s) ==>
              exists i: nat :: i in InUse(s) && SlotOf(s.tasks[i].stackBase) == j
    ensures forall i: nat, k: nat :: i in InUse(s) && k in InUse(s) && i != k ==>
              SlotOf(s.tasks[i].stackBase) != SlotOf(s.tasks[k].stackBase)
    ensures forall j: nat :: j in Taken(s) ==> j < 16
  {
    assert forall j: nat :: SlotOf(StackBase(j)) == j;
    forall i: nat | i in InUse(s)
      ensures HasStack(s, i) && Owns(s, i, SlotOf(s.tasks[i].stackBase))
    {
    }
    forall j: nat | j in Taken(s) && j !in Lost(s)
      ensures exists i: nat :: i in InUse(s) && SlotOf(s.tasks[i].stackBase) == j
    {
      var i: nat :| Owns(s, i, j);
      assert i in InUse(s);
    }
  }

  lemma {:induction false} ImageCount(s: State, used: set<nat>)
    requires forall i :: i in used ==> i < |s.tasks|
    requires forall i, k :: i in used && k in used && i != k ==>
               SlotOf(s.tasks[i].stackBase) != SlotOf(s.tasks[k].stackBase)
    ensures |set i | i in used :: SlotOf(s.tasks[i].stackBase)| == |used|
  {
    hide SlotOf;
    if used != {} {
      var x :| x in used;
      var rest := used - {x};
      ImageCount(s, rest);
      var image := set i | i in rest :: SlotOf(s.tasks[i].stackBase);
      assert (set i | i in used :: SlotOf(s.tasks[i].stackBase)) == image + {SlotOf(s.tasks[x].stackBase)};
    }
  }

  /** After any run from start-up there are at most sixteen tasks, less one for every creation that failed so. */
  lemma {:induction false} TasksLeft(ss: seq<State>, acts: seq<Action>, idle: nat, k: nat)
    requires Run(ss, acts, idle) && k < |ss| && Lost(ss[0]) == {}
    ensures |InUse(ss[k])| + Failures(ss, acts, k) <= 16
  {
    hide Inv, Lost, InUse, Taken;
    SlotsLost(ss, acts, idle, k);
    RunKeeps(ss, acts, idle, k);
    SlotsAccounted(ss[k], idle);
  }

  lemma BootedLost(now: nat)
    ensures Lost(Booted(now)) == {}
  {
    var s := Booted(now);
    assert s.tasks[0] == FreshInfo(1, Running, StackBase(0)) && Owns(s, 0, 0);
  }
}
