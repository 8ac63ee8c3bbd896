/** The scheduler over its task table: every operation is one step of the step relation. */
module Scheduler {
  import opened Common
  import opened SchedulerSteps
  import opened ReadyList

  class TaskScheduler {
    const table: array<Task>
    const stackSlots: array<bool>
    var readyListHead: nat
    var readyListTail: nat
    var currentTask: nat
    var nextPid: nat
    var pitTicks: nat
    /** The ready queue, and the idle task. */
    ghost var queue: seq<nat>
    ghost var idle: nat

    /** The abstract state. */
    ghost function View(): State
      reads this, table, stackSlots
    {
      State(Infos(table[..]), queue, currentTask, stackSlots[..], nextPid, pitTicks)
    }

    /** The list links in the table say what the queue is. */
    ghost predicate ListOk()
      reads this, table
    {
      table.Length == TASK_MAX && Links(table[..], queue, readyListHead, readyListTail)
    }

    ghost predicate Valid()
      reads this, table, stackSlots
    {
      ListOk() && Inv(View(), idle)
    }

    /** Stores a control block; its links stay. */
    method SetInfo(i: nat, info: Info)
      requires ListOk() && i < TASK_MAX
      modifies table
      ensures ListOk() && table[..] == old(table[..])[i := old(table[i]).(info := info)]
      ensures View() == old(View()).(tasks := old(View()).tasks[i := info])
    {
      hide Links;
      ghost var before := table[..];
      table[i] := table[i].(info := info);
      SameLinks(before, table[..], queue, readyListHead, readyListTail);
      assert Infos(table[..]) == Infos(before)[i := info];
    }

    /** `task_enqueue`. */
    method EnqueueTask(task: nat)
      requires ListOk() && task < TASK_MAX && task !in queue
      modifies table, this`readyListHead, this`readyListTail, this`queue
      ensures ListOk() && View() == Enqueue(old(View()), task)
    {
      hide Links;
      ghost var before := table[..];
      AppendLinks(before, queue, readyListHead, readyListTail, task);
      table[task] := table[task].(next := NIL);
      table[task] := table[task].(prev := readyListTail);
      if readyListTail != NIL {
        table[readyListTail] := table[readyListTail].(next := task);
      } else {
        readyListHead := task;
      }
      assert table[..] == Appended(before, readyListTail, task);
      assert Infos(table[..]) == Infos(before);
      readyListTail := task;
      queue := queue + [task];
      SetInfo(task, table[task].info.(state := Ready));
    }

    /** `task_remove`. */
    method RemoveTask(task: nat, ghost k: nat)
      requires ListOk() && k < |queue| && queue[k] == task
      modifies table, this`readyListHead, this`readyListTail, this`queue
      ensures ListOk() && View() == old(View()).(queue := old(queue)[..k] + old(queue)[k + 1..])
    {
      hide Links;
      ghost var before := table[..];
      RemoveLinks(before, queue, readyListHead, readyListTail, k);
      if table[task].prev != NIL {
        table[table[task].prev] := table[table[task].prev].(next := table[task].next);
      } else {
        readyListHead := table[task].next;
      }
      if table[task].next != NIL {
        table[table[task].next] := table[table[task].next].(prev := table[task].prev);
      } else {
        readyListTail := table[task].prev;
      }
      table[task] := table[task].(next := NIL);
      table[task] := table[task].(prev := NIL);
      assert table[..] == Removed(before, task);
      assert Infos(table[..]) == Infos(before);
      queue := queue[..k] + queue[k + 1..];
    }

    /** `task_select_next`; with an empty queue nothing changes. */
    method SelectNextTask() returns (next: nat)
      requires ListOk()
      modifies table, this`readyListHead, this`readyListTail, this`queue, this`currentTask
      ensures ListOk()
      ensures old(queue) == [] ==> next == NIL && View() == old(View())
      ensures old(queue) != [] ==> old(queue)[0] < TASK_MAX && next == old(queue)[0]
                                   && View() == SelectNext(old(View()))
    {
      if queue != [] {
        LinkFacts(table[..], queue, readyListHead, readyListTail, 0);
      }
      next := readyListHead;
      if next == NIL {
        return;
      }
      hide Links;
      ghost var before := View();
      RemoveTask(next, 0);
      assert queue == before.queue[1..];
      SetInfo(next, table[next].info.(state := Running));
      SetInfo(next, table[next].info.(ticks := 0));
      currentTask := next;
    }

    /** `task_schedule`, and `task_yield`, whose text is the same. */
    method ScheduleTask() returns (next: nat)
      requires ListOk() && QueueOk(View()) && currentTask < TASK_MAX
      modifies table, this`readyListHead, this`readyListTail, this`queue, this`currentTask
      ensures ListOk() && View() == Reschedule(old(View()))
    {
      hide Links;
      if table[currentTask].info.state == Running {
        SetInfo(currentTask, table[currentTask].info.(state := Ready));
        EnqueueTask(currentTask);
      }
      next := SelectNextTask();
    }

    /** `task_wake_waiting_tasks`. */
    method WakeWaitingTasks()
      requires ListOk() && Inv(View(), idle)
      modifies table, this`readyListHead, this`readyListTail, this`queue
      ensures ListOk() && View() == WakeFrom(old(View()), 0)
    {
      hide Links, Inv;
      var now := pitTicks;
      for index := 0 to TASK_MAX
        invariant ListOk() && Inv(View(), idle)
        invariant WakeFrom(View(), index) == WakeFrom(old(View()), 0)
      {
        WakeKeeps(View(), index, idle);
        WakeTask(index, now);
      }
    }

    method WakeTask(index: nat, now: nat)
      requires ListOk() && Inv(View(), idle) && index < TASK_MAX && now == pitTicks
      modifies table, this`readyListHead, this`readyListTail, this`queue
      ensures ListOk() && View() == Wake(old(View()), index)
    {
      hide Links;
      if table[index].info.state == Waiting && table[index].info.wakeTick != 0 && table[index].info.wakeTick <= now {
        SetInfo(index, table[index].info.(state := Ready));
        SetInfo(index, table[index].info.(wakeTick := 0));
        EnqueueTask(index);
      }
    }

    /** The timer interrupt: `timer_handle_interrupt`, then `task_tick`. */
    method TickTask() returns (next: nat)
      requires Valid()
      modifies table, this`readyListHead, this`readyListTail, this`queue, this`currentTask, this`pitTicks
      ensures Valid() && Step(old(View()), idle, Tick, View())
    {
      hide Links, Reschedule, WakeFrom, StacksOk, QueueOk;
      ghost var s := View();
      ElapseKeeps(s, idle);
      pitTicks := pitTicks + 1;
      LaterKeeps(s, View(), idle);
      WakeWaitingTasks();
      WakeFromKeeps(s.(now := s.now + 1), 0, idle);
      if currentTask == NIL || table[currentTask].info.state != Running {
        assert false;
      }
      SetInfo(currentTask, table[currentTask].info.(ticks := table[currentTask].info.ticks + 1));
      assert View() == Elapse(s);
      if table[currentTask].info.ticks >= table[currentTask].info.quantum {
        TickSwitches(s, idle);
        next := ScheduleTask();
        return;
      }
      next := NIL;
    }

    /** `sys_yield` and `task_yield`. */
    method YieldTask() returns (next: nat)
      requires Valid()
      modifies table, this`readyListHead, this`readyListTail, this`queue, this`currentTask
      ensures Valid() && Step(old(View()), idle, Yield, View())
    {
      hide Links, Reschedule, StacksOk, QueueOk;
      ScheduleKeeps(View(), idle);
      next := ScheduleTask();
    }

    /** `sys_sleep` and the call of the scheduler after it. */
    method SleepTask(ms: nat) returns (next: nat)
      requires Valid() && currentTask != idle
      modifies table, this`readyListHead, this`readyListTail, this`queue, this`currentTask
      ensures Valid() && Step(old(View()), idle, Sleep(ms), View())
    {
      hide Links, Reschedule, StacksOk, QueueOk;
      ghost var s := View();
      SleepKeeps(s, ms, idle);
      DozeKeeps(s, ms, idle);
      if ms != 0 {
        var delayTicks := Wrap32(ms + 9) / 10;
        SetInfo(currentTask,
                table[currentTask].info.(wakeTick := pitTicks + (if delayTicks == 0 then 1 else delayTicks)));
        SetInfo(currentTask, table[currentTask].info.(state := Waiting));
      }
      assert View() == Doze(s, ms);
      next := ScheduleTask();
    }

    /** The parent stops waiting and becomes ready. */
    method WakeParent(parent: nat)
      requires ListOk() && parent < TASK_MAX && parent !in queue
      modifies table, this`readyListHead, this`readyListTail, this`queue
      ensures ListOk()
      ensures var s := old(View()); View()
                                    == Enqueue(s.(tasks := s.tasks[parent := s.tasks[parent].(waitingForPid := 0)]),
                                               parent)
    {
      hide Links;
      SetInfo(parent, table[parent].info.(state := Ready));
      SetInfo(parent, table[parent].info.(waitingForPid := 0));
      EnqueueTask(parent);
    }

    /** `task_terminate`. */
    method TerminateTask(status: int)
      requires Valid() && currentTask != idle
      modifies table, this`readyListHead, this`readyListTail, this`queue
      ensures ListOk() && Between(View(), idle) && View() == Terminate(old(View()), status) && currentTask < TASK_MAX
    {
      hide Links, StacksOk, QueueOk, Between, Enqueue;
      ghost var s := View();
      TerminateKeeps(s, status, idle);
      SetInfo(currentTask, table[currentTask].info.(exitStatus := status));
      SetInfo(currentTask, table[currentTask].info.(state := Zombie));
      ghost var t := s.(tasks := s.tasks[s.current := s.tasks[s.current].(exitStatus := status, state := Zombie)]);
      assert View() == t;
      var parent := table[currentTask].info.parent;
      if parent < TASK_MAX && table[parent].info.state == Waiting
         && (table[parent].info.waitingForPid == table[currentTask].info.pid
             || table[parent].info.waitingForPid == -1) {
        NotQueued(s, parent);
        WakeParent(parent);
      }
    }

    /** `task_exit`, and the exit system call. */
    method ExitTask(status: int) returns (next: nat)
      requires Valid() && currentTask != idle
      modifies table, this`readyListHead, this`readyListTail, this`queue, this`currentTask
      ensures Valid() && Step(old(View()), idle, Exit(status), View())
    {
      hide Links, Reschedule, StacksOk, QueueOk, Terminate;
      ghost var s := View();
      TerminateTask(status);
      ScheduleKeeps(View(), idle);
      next := ScheduleTask();
    }

    /** `task_allocate_stack`: the lowest free slot, or the number of slots if there is none. */
    method AllocateStack(task: nat) returns (ok: bool)
      requires ListOk() && stackSlots.Length == TASK_MAX && task < TASK_MAX
      modifies table, stackSlots
      ensures ListOk()
      ensures var s := old(View()); var j := FirstSlot(s.slots, 0);
              if j < TASK_MAX
                then ok && View()
                == s.(tasks := s.tasks[task := s.tasks[task].(stackBase := StackBase(j))], slots := s.slots[j := true])
              else !ok && View() == s
    {
      hide Links;
      ghost var s := View();
      for slot := 0 to StackSlotCount()
        invariant View() == s && ListOk()
        invariant FirstSlot(s.slots, slot) == FirstSlot(s.slots, 0)
      {
        if !stackSlots[slot] {
          stackSlots[slot] := true;
          assert stackSlots[..] == s.slots[slot := true];
          SetInfo(task, table[task].info.(stackBase := KERNEL_STACK_REGION_START + slot * KERNEL_STACK_SIZE));
          return true;
        }
      }
      ok := false;
    }

    /** `task_alloc`. */
    method AllocTask() returns (task: nat)
      requires ListOk() && stackSlots.Length == TASK_MAX
      modifies table, stackSlots, this`nextPid
      ensures ListOk() && (View(), task) == Alloc(old(View()))
    {
      hide Links;
      ghost var s := View();
      for index := 0 to TASK_MAX
        invariant View() == s && ListOk()
        invariant FirstUnused(s.tasks, index) == FirstUnused(s.tasks, 0)
      {
        if table[index].info.state == Unused {
          var pid := nextPid;
          nextPid := nextPid + 1;
          SetInfo(index, FreshInfo(pid, Ready, 0));
          var ok := AllocateStack(index);
          if !ok {
            SetInfo(index, table[index].info.(state := Unused));
            assert View().tasks == Alloc(s).0.tasks;
            return NIL;
          }
          assert View().tasks == Alloc(s).0.tasks;
          return index;
        }
      }
      task := NIL;
    }

    /** `task_create` and the creation of user tasks, which fails where memory for them cannot be had. */
    method CreateTask(kind: TaskType, memory: bool) returns (task: nat)
      requires ListOk() && QueueOk(View()) && stackSlots.Length == TASK_MAX
      modifies table, stackSlots, this`nextPid, this`readyListHead, this`readyListTail, this`queue
      ensures ListOk() && View() == Create(old(View()), kind, memory)
      ensures task != NIL <==> memory && Alloc(old(View())).1 != NIL
      ensures task != NIL ==> task == Alloc(old(View())).1
    {
      hide Links, QueueOk;
      ghost var s := View();
      task := AllocTask();
      if task == NIL {
        return;
      }
      NotQueued(s, task);
      if !memory {
        SetInfo(task, table[task].info.(state := Unused));
        return NIL;
      }
      SetInfo(task, table[task].info.(kind := kind));
      EnqueueTask(task);
    }

    /** The creation of a task while another runs. */
    method SpawnTask(kind: TaskType, memory: bool) returns (task: nat)
      requires Valid()
      modifies table, stackSlots, this`nextPid, this`readyListHead, this`readyListTail, this`queue
      ensures Valid() && Step(old(View()), idle, NewTask(kind, memory), View())
    {
      hide Links, QueueOk, StacksOk, Create, Alloc;
      CreateKeeps(View(), kind, memory, idle);
      task := CreateTask(kind, memory);
    }

    /** `sys_fork`: the entry of the child, its place among the children of its parent, and the queue. */
    method ForkCurrent(memory: bool) returns (pid: int)
      requires Valid()
      modifies table, stackSlots, this`nextPid, this`readyListHead, this`readyListTail, this`queue
      ensures Valid() && Step(old(View()), idle, ForkTask(memory), View())
      ensures var s := old(View());
              pid == if s.tasks[s.current].kind == UserProcess && Alloc(s).1 != NIL && memory then s.nextPid else -1
    {
      hide Links, QueueOk, StacksOk, Alloc;
      ghost var s := View();
      ForkKeeps(s, memory, idle);
      if table[currentTask].info.kind != UserProcess {
        return -1;
      }
      var child := AllocTask();
      if child == NIL {
        return -1;
      }
      FreshEntry(s);
      NotQueued(s, child);
      if !memory {
        SetInfo(child, table[child].info.(state := Unused));
        return -1;
      }
      SetInfo(child, table[child].info.(kind := UserProcess, parent := currentTask));
      SetInfo(currentTask, table[currentTask].info.(children := [child] + table[currentTask].info.children));
      assert View() == Adopted(s);
      EnqueueTask(child);
      pid := table[child].info.pid;
    }

    /** `task_free_stack`. */
    method FreeStack(task: nat)
      requires ListOk() && stackSlots.Length == TASK_MAX && task < TASK_MAX
      modifies table, stackSlots
      ensures ListOk()
      ensures var s := old(View()); var slot := SlotOf(s.tasks[task].stackBase);
              View() == s.(tasks := s.tasks[task := s.tasks[task].(stackBase := 0)], slots := if slot < |s.slots|
                then s.slots[slot := false] else s.slots)
    {
      hide Links;
      ghost var s := View();
      var slot := SlotOf(table[task].info.stackBase);
      if table[task].info.stackBase != 0 && slot < StackSlotCount() {
        stackSlots[slot] := false;
        assert stackSlots[..] == s.slots[slot := false];
      }
      SetInfo(task, table[task].info.(stackBase := 0));
    }

    /**
     `sys_wait` for a child that has exited: its stack slot, its place among the children and its entry are given up.
     */
    method ReapChild(pid: int) returns (r: int, status: int)
      requires Valid() && Enabled(View(), idle, Reap(pid))
      modifies table, stackSlots
      ensures Valid() && Step(old(View()), idle, Reap(pid), View())
      ensures var s := old(View()); var me := s.tasks[s.current];
              && (r == -1 ==> View() == s)
              && (r == -1 <==> me.kind != UserProcess
                               || forall k :: 0 <= k < |me.children| ==> !HasPid(s.tasks, me.children[k], pid))
      ensures var s := old(View()); var children := s.tasks[s.current].children;
              r != -1 ==> r == pid && forall k: nat :: FirstChild(s.tasks, children, pid, k) ==>
                status == s.tasks[children[k]].exitStatus && Buried(s, children[k], View())
    {
      hide Links, QueueOk, StacksOk, FindChild, Buried;
      ghost var s := View();
      status := 0;
      if table[currentTask].info.kind != UserProcess {
        return -1, status;
      }
      var child := FindChildOf(currentTask, pid);
      if child == NIL {
        return -1, status;
      }
      status := table[child].info.exitStatus;
      r := table[child].info.pid;
      BuryKeeps(s, child, idle);
      FreeStack(child);
      var parent := table[child].info.parent;
      if parent < TASK_MAX {
        SetInfo(parent, table[parent].info.(children := Without(table[parent].info.children, child)));
      }
      SetInfo(child, table[child].info.(kind := Kernel, parent := NIL, waitingForPid := -1));
      SetInfo(child, table[child].info.(state := Unused));
      assert View() == Bury(s, child);
      BuryMeans(s, child, idle);
    }

    /** `task_find_child`. */
    method FindChildOf(parent: nat, pid: int) returns (child: nat)
      requires table.Length == TASK_MAX && parent < TASK_MAX
      ensures child == FindChild(View().tasks, table[parent].info.children, pid)
      ensures child == NIL || child < TASK_MAX
    {
      var children: seq<nat> := table[parent].info.children;
      while children != []
        invariant FindChild(View().tasks, children, pid) == FindChild(View().tasks, table[parent].info.children, pid)
        decreases |children|
      {
        if children[0] < TASK_MAX && table[children[0]].info.pid == pid {
          return children[0];
        }
        children := children[1..];
      }
      child := NIL;
    }

    constructor ()
      ensures table.Length == TASK_MAX && stackSlots.Length == TASK_MAX && fresh(table) && fresh(stackSlots)
    {
      table := new Task[TASK_MAX](_ => Task(FreshInfo(0, Unused, 0), NIL, NIL));
      stackSlots := new bool[TASK_MAX](_ => false);
      readyListHead := NIL;
      readyListTail := NIL;
      currentTask := NIL;
      nextPid := 1;
      pitTicks := 0;
      queue := [];
    }

    /** `task_init`: an empty table. */
    method InitTasks()
      requires table.Length == TASK_MAX && stackSlots.Length == TASK_MAX
      modifies this, table, stackSlots
      ensures ListOk() && queue == [] && currentTask == NIL && nextPid == 1
      ensures forall i :: 0 <= i < TASK_MAX ==> table[i].info == EmptyInfo() && !stackSlots[i]
      ensures pitTicks == old(pitTicks)
    {
      for index := 0 to TASK_MAX
        invariant pitTicks == old(pitTicks)
        invariant forall i :: 0 <= i < index ==> table[i].info == EmptyInfo() && !stackSlots[i]
      {
        table[index] := Task(EmptyInfo(), NIL, NIL);
        stackSlots[index] := false;
      }
      readyListHead := NIL;
      readyListTail := NIL;
      currentTask := NIL;
      nextPid := 1;
      queue := [];
    }

    /** `task_set_current`. */
    method SetCurrent(task: nat, ghost k: nat)
      requires ListOk() && k < |queue| && queue[k] == task && task < TASK_MAX && table[task].info.state == Ready
      modifies table, this`readyListHead, this`readyListTail, this`queue, this`currentTask
      ensures ListOk()
      ensures var s := old(View());
              View() == (if task == s.current then s
                         else s.(queue := s.queue[..k] + s.queue[k + 1..], current := task,
                                 tasks := s.tasks[task := s.tasks[task].(state := Running, ticks := 0)]))
    {
      hide Links;
      if task == currentTask {
        return;
      }
      RemoveTask(task, k);
      currentTask := task;
      SetInfo(task, table[task].info.(state := Running));
      SetInfo(task, table[task].info.(ticks := 0));
    }

    /** Start-up: the idle task is created and made the running one. */
    method Boot()
      requires table.Length == TASK_MAX && stackSlots.Length == TASK_MAX
      modifies this, table, stackSlots
      ensures Valid() && currentTask == idle && View() == Booted(old(pitTicks))
    {
      hide Links;
      InitTasks();
      ghost var s := View();
      var idleTask := CreateTask(Kernel, true);
      BootState(s);
      SetCurrent(idleTask, 0);
      idle := idleTask;
    }
  }

  /** The idle task created in an empty table is the only entry in use, and runs with the first stack. */
  lemma BootState(s: State)
    requires |s.tasks| == |s.slots| == TASK_MAX && s.queue == [] && s.current == NIL && s.nextPid == 1
    requires forall i :: 0 <= i < TASK_MAX ==> s.tasks[i] == EmptyInfo() && !s.slots[i]
    ensures var (_, i) := Alloc(s); i == 0
    ensures var t := Create(s, Kernel, true); t.queue == [0] && t.current == NIL && |t.tasks| == TASK_MAX
                                              && t.tasks[0].state == Ready
    ensures var t := Create(s, Kernel, true);
            t.(queue := t.queue[..0] + t.queue[1..], current := 0,
               tasks := t.tasks[0 := t.tasks[0].(state := Running, ticks := 0)]) == Booted(s.now)
    ensures Inv(Booted(s.now), 0)
  {
    assert FirstUnused(s.tasks, 0) == 0 && FirstSlot(s.slots, 0) == 0;
    BootedOk(s.now);
    var t := Create(s, Kernel, true);
    var u := t.(queue := t.queue[..0] + t.queue[1..], current := 0,
                tasks := t.tasks[0 := t.tasks[0].(state := Running, ticks := 0)]);
    SameTable(u, Booted(s.now));
  }

  /** A fork just before the child is enqueued. */
  ghost function Adopted(s: State): State
    requires |s.tasks| == TASK_MAX && s.current < TASK_MAX && Alloc(s).1 < TASK_MAX && |Alloc(s).0.tasks| == TASK_MAX
  {
    var (t, i) := Alloc(s);
    var u := t.tasks[i := t.tasks[i].(kind := UserProcess, parent := s.current)];
    t.(tasks := u[s.current := u[s.current].(children := [i] + u[s.current].children)])
  }

  lemma FreshEntry(s: State)
    requires |s.tasks| == TASK_MAX && Alloc(s).1 != NIL
    ensures var i := Alloc(s).1; i < TASK_MAX && s.tasks[i].state == Unused
    ensures |Alloc(s).0.tasks| == TASK_MAX && Alloc(s).0.tasks[Alloc(s).1].pid == s.nextPid
  {
  }

  lemma NotQueued(s: State, i: nat)
    requires QueueOk(s) && i < |s.tasks| && s.tasks[i].state != Ready
    ensures i !in s.queue
  {
  }

  lemma DozeKeeps(s: State, ms: nat, idle: nat)
    requires Inv(s, idle) && s.current != idle
    ensures QueueOk(Doze(s, ms))
  {
    hide QueueOk, StacksOk;
    if ms > 0 {
      StopKeeps(s, Doze(s, ms), idle);
    }
  }

  lemma LaterKeeps(s: State, t: State, idle: nat)
    requires Inv(s, idle) && t == s.(now := s.now + 1)
    ensures Inv(t, idle)
  {
    hide QueueOk, StacksOk;
    SameQueue(s, t);
    SameStacks(s, t);
  }
}
