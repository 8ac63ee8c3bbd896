/** Processes and their children over whole runs: who is whose child, and what a parent that waits is told. */
module SchedulerFamilies {
  import opened SchedulerSteps
  import opened SchedulerRuns

  // ---------------------------------------------------------------- what holds of families

  /** Child `k` of entry `i` is in use, names `i` as its parent, and is listed once. */
  ghost predicate ChildOk(s: State, i: nat, k: nat)
    requires i < |s.tasks| && k < |s.tasks[i].children|
  {
    var c := s.tasks[i].children[k];
    && c < |s.tasks| && s.tasks[c].state != Unused && s.tasks[c].parent == i && c !in s.tasks[i].children[..k]
  }

  /** Only user processes have children, and these are as they should be. */
  ghost predicate ChildrenOk(s: State) {
    && (forall i: nat, k: nat :: i < |s.tasks| && s.tasks[i].state != Unused && k < |s.tasks[i].children| ==>
        ChildOk(s, i, k))
    && forall i: nat :: i < |s.tasks| && s.tasks[i].state != Unused && s.tasks[i].children != [] ==>
         s.tasks[i].kind == UserProcess
  }

  /** Process numbers in use are different and have been given out. */
  ghost predicate PidsOk(s: State) {
    && s.nextPid > 0
    && (forall i: nat :: i < |s.tasks| && s.tasks[i].state != Unused ==> 0 < s.tasks[i].pid < s.nextPid)
    && forall i: nat, j: nat :: i < j < |s.tasks| && s.tasks[i].state != Unused && s.tasks[j].state != Unused ==>
         s.tasks[i].pid != s.tasks[j].pid
  }

  ghost predicate Families(s: State) {
    ChildrenOk(s) && PidsOk(s)
  }

  /** A parent that a task names is in use and lists the task. */
  ghost predicate ParentsOk(s: State) {
    forall c: nat :: c < |s.tasks| && s.tasks[c].state != Unused && s.tasks[c].parent != NIL ==> ParentOk(s, c)
  }

  ghost predicate ParentOk(s: State, c: nat)
    requires c < |s.tasks|
  {
    var p := s.tasks[c].parent;
    p < |s.tasks| && s.tasks[p].state != Unused && c in s.tasks[p].children
  }

  // ---------------------------------------------------------------- steps that leave families alone

  ghost predicate SameLine(a: Info, b: Info) {
    && b.pid == a.pid && b.kind == a.kind && b.parent == a.parent && b.children == a.children
    && b.stackBase == a.stackBase
    && (b.state == Unused <==> a.state == Unused) && (a.state == Zombie ==> b == a)
  }

  /** Nobody came or went, zombies are untouched, and everyone has the stack that they had. */
  ghost predicate SameFamilies(s: State, t: State) {
    && |t.tasks| == |s.tasks| && t.nextPid == s.nextPid && t.slots == s.slots
    && forall i: nat :: i < |s.tasks| ==> SameLine(s.tasks[i], t.tasks[i])
  }

  lemma SameTwice(s: State, t: State, u: State)
    requires SameFamilies(s, t) && SameFamilies(t, u)
    ensures SameFamilies(s, u)
  {
    forall i: nat | i < |s.tasks|
      ensures SameLine(s.tasks[i], u.tasks[i])
    {
      assert SameLine(s.tasks[i], t.tasks[i]) && SameLine(t.tasks[i], u.tasks[i]);
    }
  }

  lemma SameKeeps(s: State, t: State)
    requires SameFamilies(s, t)
    ensures Families(s) ==> Families(t)
    ensures ParentsOk(s) ==> ParentsOk(t)
  {
    assert forall i: nat :: i < |s.tasks| ==> SameLine(s.tasks[i], t.tasks[i]);
    if Families(s) {
      forall i: nat, k: nat | i < |t.tasks| && t.tasks[i].state != Unused && k < |t.tasks[i].children|
        ensures ChildOk(t, i, k)
      {
        assert ChildOk(s, i, k);
      }
    }
    if ParentsOk(s) {
      forall c: nat | c < |t.tasks| && t.tasks[c].state != Unused && t.tasks[c].parent != NIL
        ensures ParentOk(t, c)
      {
        assert ParentOk(s, c);
      }
    }
  }

  lemma EnqueueSame(s: State, i: nat)
    requires i < |s.tasks| && s.tasks[i].state != Unused && s.tasks[i].state != Zombie
    ensures SameFamilies(s, Enqueue(s, i))
  {
  }

  lemma SelectSame(s: State)
    requires s.queue != [] && s.queue[0] < |s.tasks| && s.tasks[s.queue[0]].state == Ready
    ensures SameFamilies(s, SelectNext(s))
  {
  }

  lemma SwitchSame(s: State, idle: nat)
    requires Inv(s, idle) || (s.current < |s.tasks| && Between(s, idle))
    ensures SameFamilies(s, Reschedule(s))
  {
    ScheduleKeeps(s, idle);
    IdleInQueue(Requeue(s), idle);
    hide StacksOk, QueueOk, SameFamilies, SelectNext, Enqueue;
    if s.tasks[s.current].state == Running {
      EnqueueSame(s, s.current);
    } else {
      SameItself(s);
    }
    SelectSame(Requeue(s));
    SameTwice(s, Requeue(s), Reschedule(s));
  }

  lemma SameItself(s: State)
    ensures SameFamilies(s, s)
  {
  }

  lemma StopSame(s: State, t: State)
    requires s.current < |s.tasks| == |t.tasks| && t.nextPid == s.nextPid && t.slots == s.slots
             && s.tasks[s.current].state == Running
    requires forall i: nat :: i < |s.tasks| && i != s.current ==> t.tasks[i] == s.tasks[i]
    requires SameLine(s.tasks[s.current], t.tasks[s.current])
    ensures SameFamilies(s, t)
  {
  }

  lemma {:induction false} WakesSame(s: State, i: nat, idle: nat)
    requires Inv(s, idle) && i <= |s.tasks|
    ensures SameFamilies(s, WakeFrom(s, i))
    decreases |s.tasks| - i
  {
    hide QueueOk, StacksOk, RunningOk;
    if i < |s.tasks| {
      WakeKeeps(s, i, idle);
      hide Inv;
      WakesSame(Wake(s, i), i + 1, idle);
      SameTwice(s, Wake(s, i), WakeFrom(s, i));
    }
  }

  lemma TickSame(s: State, idle: nat)
    requires Inv(s, idle)
    ensures SameFamilies(s, Elapse(s))
  {
    hide QueueOk, StacksOk;
    var t := s.(now := s.now + 1);
    SameQueue(s, t);
    SameStacks(s, t);
    WakesSame(t, 0, idle);
    WakeFromKeeps(t, 0, idle);
    SameTwice(s, t, WakeFrom(t, 0));
    SameTwice(s, WakeFrom(t, 0), Elapse(s));
  }

  lemma ExpirySame(s: State, idle: nat)
    requires Inv(s, idle) && Expired(Elapse(s))
    ensures SameFamilies(s, Reschedule(Elapse(s)))
  {
    TickSame(s, idle);
    ElapseKeeps(s, idle);
    TickSwitches(s, idle);
    hide StacksOk, Elapse, SameFamilies, Reschedule;
    var e := Elapse(s);
    EnqueueKeeps(e, e.current);
    var q := Enqueue(e, e.current);
    assert q.queue[0] < |q.tasks| && q.tasks[q.queue[0]].state == Ready;
    EnqueueSame(e, e.current);
    SelectSame(q);
    SameTwice(s, e, q);
    SameTwice(s, q, Reschedule(e));
  }

  lemma SleepSame(s: State, ms: nat, idle: nat)
    requires Inv(s, idle) && s.current != idle
    ensures SameFamilies(s, Reschedule(Doze(s, ms)))
  {
    hide StacksOk, QueueOk, Reschedule, SameFamilies;
    var d := Doze(s, ms);
    if ms > 0 {
      StopKeeps(s, d, idle);
    }
    StopSame(s, d);
    SwitchSame(d, idle);
    SameTwice(s, d, Reschedule(d));
  }

  lemma ExitSame(s: State, status: int, idle: nat)
    requires Inv(s, idle) && s.current != idle
    ensures SameFamilies(s, Reschedule(Terminate(s, status)))
    ensures var z := Reschedule(Terminate(s, status)).tasks;
            s.current < |z| && z[s.current] == s.tasks[s.current].(exitStatus := status, state := Zombie)
  {
    TerminateKeeps(s, status, idle);
    hide StacksOk, QueueOk, Reschedule, SameFamilies;
    var t := s.(tasks := s.tasks[s.current := s.tasks[s.current].(exitStatus := status, state := Zombie)]);
    StopSame(s, t);
    var u := Terminate(s, status);
    if ParentWaits(t, s.current) {
      var p := t.tasks[s.current].parent;
      var v := t.(tasks := t.tasks[p := t.tasks[p].(waitingForPid := 0)]);
      WaitSame(t, v, p);
      EnqueueSame(v, p);
      SameTwice(t, v, u);
    } else {
      SameItself(t);
    }
    SameTwice(s, t, u);
    SwitchSame(u, idle);
    SameTwice(s, u, Reschedule(u));
    SameAt(u, Reschedule(u), s.current);
  }

  lemma WaitSame(s: State, t: State, p: nat)
    requires p < |s.tasks| && s.tasks[p].state == Waiting
    requires t == s.(tasks := s.tasks[p := s.tasks[p].(waitingForPid := 0)])
    ensures SameFamilies(s, t)
  {
  }

  lemma SameAt(s: State, t: State, i: nat)
    requires SameFamilies(s, t) && i < |s.tasks|
    ensures |t.tasks| == |s.tasks| && SameLine(s.tasks[i], t.tasks[i])
  {
  }

  // ---------------------------------------------------------------- steps that change families

  /** A task that was not there before, in entry `i`, and perhaps among the children of the running task. */
  ghost predicate Joins(s: State, t: State, i: nat, child: bool) {
    && i < |s.tasks| == |t.tasks| && s.current < |s.tasks| && i != s.current && s.tasks[i].state == Unused
    && s.tasks[s.current].state != Unused
    && t.nextPid == s.nextPid + 1 && t.tasks[i].pid == s.nextPid && t.tasks[i].children == []
    && t.tasks[i].state == Ready && t.tasks[i].parent == (if child then s.current else NIL)
    && (child ==> s.tasks[s.current].kind == t.tasks[i].kind == UserProcess)
    && t.tasks[s.current] == s.tasks[s.current].(
                               children := (if child then [i] else []) + s.tasks[s.current].children)
    && forall k: nat :: k < |s.tasks| && k != i && k != s.current ==> t.tasks[k] == s.tasks[k]
  }

  lemma JoinKeeps(s: State, t: State, i: nat, child: bool)
    requires Joins(s, t, i, child)
    ensures Families(s) ==> Families(t)
    ensures ParentsOk(s) ==> ParentsOk(t)
  {
    if Families(s) {
      forall j: nat, k: nat | j < |t.tasks| && t.tasks[j].state != Unused && k < |t.tasks[j].children|
        ensures ChildOk(t, j, k)
      {
        JoinChild(s, t, i, child, j, k);
      }
    }
    if ParentsOk(s) {
      forall c: nat | c < |t.tasks| && t.tasks[c].state != Unused && t.tasks[c].parent != NIL
        ensures ParentOk(t, c)
      {
        assert c != i ==> ParentOk(s, c);
      }
    }
  }

  lemma JoinChild(s: State, t: State, i: nat, child: bool, j: nat, k: nat)
    requires Joins(s, t, i, child) && ChildrenOk(s)
    requires j < |t.tasks| && t.tasks[j].state != Unused && k < |t.tasks[j].children|
    ensures ChildOk(t, j, k)
  {
    if j == s.current && child {
      var older := s.tasks[j].children;
      if k > 0 {
        assert ChildOk(s, j, k - 1);
        assert ([i] + older)[..k] == [i] + older[..k - 1];
      }
    } else {
      assert t.tasks[j].children == s.tasks[j].children by {
        assert [] + s.tasks[j].children == s.tasks[j].children;
      }
      assert ChildOk(s, j, k);
    }
  }

  /** An entry that was tried and given up: a process number is used up. */
  lemma GiveUpKeeps(s: State, t: State)
    requires |t.tasks| == |s.tasks| && t.nextPid >= s.nextPid
    requires forall k: nat :: k < |s.tasks| && s.tasks[k].state != Unused ==> t.tasks[k] == s.tasks[k]
    requires forall k: nat :: k < |s.tasks| && s.tasks[k].state == Unused ==> t.tasks[k].state == Unused
    ensures Families(s) ==> Families(t)
    ensures ParentsOk(s) ==> ParentsOk(t)
  {
    if Families(s) {
      forall i: nat, k: nat | i < |t.tasks| && t.tasks[i].state != Unused && k < |t.tasks[i].children|
        ensures ChildOk(t, i, k)
      {
        assert ChildOk(s, i, k);
      }
    }
    if ParentsOk(s) {
      forall c: nat | c < |t.tasks| && t.tasks[c].state != Unused && t.tasks[c].parent != NIL
        ensures ParentOk(t, c)
      {
        assert ParentOk(s, c);
      }
    }
  }

  lemma CreateFamilies(s: State, kind: TaskType, memory: bool, idle: nat)
    requires Inv(s, idle)
    ensures Families(s) ==> Families(Create(s, kind, memory))
    ensures ParentsOk(s) ==> ParentsOk(Create(s, kind, memory))
  {
    AllocKeeps(s, idle);
    hide StacksOk, QueueOk, Families, ParentsOk;
    var i, t := Alloc(s).1, Create(s, kind, memory);
    if i == NIL || !memory {
      GiveUpKeeps(s, t);
    } else {
      assert [] + s.tasks[s.current].children == s.tasks[s.current].children;
      JoinKeeps(s, t, i, false);
    }
  }

  lemma ForkFamilies(s: State, memory: bool, idle: nat)
    requires Inv(s, idle)
    ensures Families(s) ==> Families(Fork(s, memory))
    ensures ParentsOk(s) ==> ParentsOk(Fork(s, memory))
  {
    AllocKeeps(s, idle);
    hide StacksOk, QueueOk, Families, ParentsOk;
    var i, t := Alloc(s).1, Fork(s, memory);
    if s.tasks[s.current].kind == UserProcess {
      if i == NIL || !memory {
        GiveUpKeeps(s, t);
      } else {
        JoinKeeps(s, t, i, true);
      }
    }
  }

  /** Child `k` of entry `p` is taken out. */
  lemma BuryFamilies(s: State, c: nat, p: nat, k: nat)
    requires Families(s) && p < |s.tasks| == TASK_MAX && s.tasks[p].state != Unused && p != c
    requires k < |s.tasks[p].children| && s.tasks[p].children[k] == c
    ensures c < |s.tasks| && Families(Bury(s, c))
    ensures ParentsOk(s) ==> (ParentsOk(Bury(s, c)) <==> s.tasks[c].children == [])
  {
    assert ChildOk(s, p, k);
    WithoutFirst(s.tasks[p].children, c, k);
    hide Without, SlotOf;
    var t := Bury(s, c);
    forall i: nat, l: nat | i < |t.tasks| && t.tasks[i].state != Unused && l < |t.tasks[i].children|
      ensures ChildOk(t, i, l)
    {
      BuryChild(s, c, p, k, i, l);
    }
    hide ChildOk;
    if ParentsOk(s) {
      BuryParents(s, c, p, k);
    }
  }

  /** The children of the one that goes, if any, are left with a parent that is not there. */
  lemma {:induction false} BuryParents(s: State, c: nat, p: nat, k: nat)
    requires ChildrenOk(s) && ParentsOk(s) && p < |s.tasks| == TASK_MAX && s.tasks[p].state != Unused && p != c
    requires k < |s.tasks[p].children| && s.tasks[p].children[k] == c < |s.tasks| && s.tasks[c].state != Unused
    requires s.tasks[c].parent == p
    requires Without(s.tasks[p].children, c) == s.tasks[p].children[..k] + s.tasks[p].children[k + 1..]
    ensures ParentsOk(Bury(s, c)) <==> s.tasks[c].children == []
  {
    hide Without, SlotOf;
    var t := Bury(s, c);
    if s.tasks[c].children != [] {
      assert ChildOk(s, c, 0);
      assert s.tasks[c].children[0] != c;
      assert !ParentOk(t, s.tasks[c].children[0]);
    } else {
      forall d: nat | d < |t.tasks| && t.tasks[d].state != Unused && t.tasks[d].parent != NIL
        ensures ParentOk(t, d)
      {
        StillListed(s, c, p, k, d);
      }
    }
  }

  lemma {:induction false} StillListed(s: State, c: nat, p: nat, k: nat, d: nat)
    requires ChildrenOk(s) && ParentsOk(s) && p < |s.tasks| == TASK_MAX && p != c
    requires k < |s.tasks[p].children| && s.tasks[p].children[k] == c < |s.tasks| && s.tasks[c].children == []
    requires Without(s.tasks[p].children, c) == s.tasks[p].children[..k] + s.tasks[p].children[k + 1..]
    requires d < |s.tasks| && d != c && s.tasks[d].state != Unused && s.tasks[d].parent != NIL
    requires s.tasks[c].parent == p
    ensures ParentOk(Bury(s, c), d)
  {
    hide Without, SlotOf, ChildOk;
    assert ParentOk(s, d);
    var q := s.tasks[s.tasks[d].parent].children;
    var x :| 0 <= x < |q| && q[x] == d;
    if s.tasks[d].parent == p {
      var r := q[..k] + q[k + 1..];
      assert r[if x < k then x else x - 1] == d;
    }
  }

  /** What is left of a list without repetitions is one, too. */
  lemma TakenOut(q: seq<nat>, k: nat, l: nat)
    requires k < |q| && l < |q| - 1
    ensures var r, m := q[..k] + q[k + 1..], if l < k then l else l + 1;
            r[l] == q[m] && (q[m] !in q[..m] ==> r[l] !in r[..l])
  {
    var r, m := q[..k] + q[k + 1..], if l < k then l else l + 1;
    if r[l] in r[..l] {
      var x :| 0 <= x < l && r[x] == r[l];
      var y := if x < k then x else x + 1;
      assert q[y] == r[x] && q[..m][y] == q[y];
    }
  }

  lemma {:induction false} BuryChild(s: State, c: nat, p: nat, k: nat, i: nat, l: nat)
    requires ChildrenOk(s) && p < |s.tasks| && s.tasks[p].state != Unused && p != c && c < |s.tasks|
    requires k < |s.tasks[p].children| && s.tasks[p].children[k] == c && s.tasks[c].parent == p
    requires Without(s.tasks[p].children, c) == s.tasks[p].children[..k] + s.tasks[p].children[k + 1..]
    requires i < |s.tasks| && i != c && l < |Bury(s, c).tasks[i].children| && s.tasks[i].state != Unused
    ensures ChildOk(Bury(s, c), i, l)
  {
    hide Without, SlotOf;
    var t := Bury(s, c);
    if i == p {
      TakenOut(s.tasks[p].children, k, l);
      var m := if l < k then l else l + 1;
      assert ChildOk(s, p, k) && ChildOk(s, p, m);
      OnceOnly(s.tasks[p].children, k, m);
    } else {
      assert t.tasks[i].children == s.tasks[i].children;
      assert ChildOk(s, i, l);
    }
  }

  lemma OnceOnly(q: seq<nat>, k: nat, m: nat)
    requires k < |q| && m < |q| && q[k] !in q[..k] && q[m] !in q[..m] && k != m
    ensures q[k] != q[m]
  {
    assert k < m ==> q[..m][k] == q[k];
    assert m < k ==> q[..k][m] == q[m];
  }

  /** The step reaps a child that has children of its own. */
  ghost predicate ReapsParent(s: State, a: Action)
    requires s.current < |s.tasks|
  {
    var me := s.tasks[s.current];
    a.Reap? && me.kind == UserProcess
    && exists k: nat :: FirstChild(s.tasks, me.children, a.pid, k) && s.tasks[me.children[k]].children != []
  }

  /** In every step families stay what they are; parents stay so, too, exactly unless a parent of others is reaped. */
  lemma StepFamilies(s: State, idle: nat, a: Action, t: State)
    requires Inv(s, idle) && Enabled(s, idle, a) && Step(s, idle, a, t) && Families(s)
    ensures Families(t)
    ensures ParentsOk(s) ==> (ParentsOk(t) <==> !ReapsParent(s, a))
  {
    hide QueueOk, StacksOk, Reschedule, Elapse, Doze, Terminate, Create, Fork, Bury, FindChild, Families, ParentsOk,
         SameFamilies;
    match a
    case Tick =>
      TickSame(s, idle);
      ElapseKeeps(s, idle);
      if Expired(Elapse(s)) {
        ExpirySame(s, idle);
      }
      SameKeeps(s, t);
    case Yield =>
      SwitchSame(s, idle);
      SameKeeps(s, t);
    case Sleep(ms) =>
      SleepSame(s, ms, idle);
      SameKeeps(s, t);
    case Exit(status) =>
      ExitSame(s, status, idle);
      SameKeeps(s, t);
    case NewTask(kind, memory) => CreateFamilies(s, kind, memory, idle);
    case ForkTask(memory) => ForkFamilies(s, memory, idle);
    case Reap(pid) =>
      var me := s.tasks[s.current];
      var c := FindChild(s.tasks, me.children, pid);
      if c != NIL && me.kind == UserProcess {
        var k := FirstIndex(s.tasks, me.children, pid);
        BuryFamilies(s, c, s.current, k);
        assert forall l: nat :: FirstChild(s.tasks, me.children, pid, l) ==> me.children[l] == c;
      }
  }

  /** Where the first child with a process number stands. */
  lemma {:induction false} FirstIndex(tasks: seq<Info>, children: seq<nat>, pid: int) returns (k: nat)
    requires FindChild(tasks, children, pid) != NIL
    ensures FirstChild(tasks, children, pid, k) && children[k] == FindChild(tasks, children, pid)
  {
    if HasPid(tasks, children[0], pid) {
      k := 0;
    } else {
      k := FirstIndex(tasks, children[1..], pid);
      k := k + 1;
      assert forall l :: 0 < l < |children| ==> children[l] == children[1..][l - 1];
    }
  }

  // ---------------------------------------------------------------- over whole runs

  lemma BootedFamilies(now: nat)
    ensures Families(Booted(now)) && ParentsOk(Booted(now))
  {
    var s := Booted(now);
    assert forall i :: 0 < i < TASK_MAX ==> s.tasks[i] == EmptyInfo();
    assert s.tasks[0] == FreshInfo(1, Running, StackBase(0));
  }

  /** From families in order every run goes on in order, whatever is created, forked, ended and reaped. */
  lemma {:induction false} FamiliesHold(ss: seq<State>, acts: seq<Action>, idle: nat, k: nat)
    requires Run(ss, acts, idle) && k < |ss| && Families(ss[0])
    ensures Inv(ss[k], idle) && Families(ss[k])
  {
    hide Inv, Step, Enabled, Families;
    RunKeeps(ss, acts, idle, k);
    if k > 0 {
      FamiliesHold(ss, acts, idle, k - 1);
      assert Follows(ss, acts, idle, k - 1);
      StepFamilies(ss[k - 1], idle, acts[k - 1], ss[k]);
    }
  }

  /** And as long as no parent of others is reaped, the parent that a task names is its parent. */
  lemma {:induction false} ParentsHold(ss: seq<State>, acts: seq<Action>, idle: nat, k: nat)
    requires Run(ss, acts, idle) && k < |ss| && Families(ss[0]) && ParentsOk(ss[0])
    requires forall m :: 0 <= m < k ==> ss[m].current < |ss[m].tasks| && !ReapsParent(ss[m], acts[m])
    ensures ParentsOk(ss[k])
  {
    hide Inv, Step, Enabled, Families, ParentsOk, ReapsParent;
    if k > 0 {
      ParentsHold(ss, acts, idle, k - 1);
      FamiliesHold(ss, acts, idle, k - 1);
      assert Follows(ss, acts, idle, k - 1);
      StepFamilies(ss[k - 1], idle, acts[k - 1], ss[k]);
    }
  }

  /** The action is a wait for entry `c` by a task that has it among its children. */
  ghost predicate Collects(s: State, a: Action, c: nat) {
    && s.current < |s.tasks| && c < |s.tasks| && a.Reap? && s.tasks[s.current].kind == UserProcess
    && c in s.tasks[s.current].children && a.pid == s.tasks[c].pid
  }

  /** A wait finds the child with that number, and no other. */
  lemma WaitFinds(s: State, a: Action, c: nat)
    requires Families(s) && |s.tasks| == TASK_MAX && s.current < |s.tasks| && s.tasks[s.current].state != Unused
    requires a.Reap?
    ensures Collects(s, a, c) <==>
              s.tasks[s.current].kind == UserProcess && c != NIL
              && FindChild(s.tasks, s.tasks[s.current].children, a.pid) == c
  {
    var children := s.tasks[s.current].children;
    var f := FindChild(s.tasks, children, a.pid);
    if Collects(s, a, c) {
      var k :| 0 <= k < |children| && children[k] == c;
      assert HasPid(s.tasks, children[k], a.pid);
      var l := FirstIndex(s.tasks, children, a.pid);
      assert ChildOk(s, s.current, k) && ChildOk(s, s.current, l);
    }
  }

  /** Nothing touches a zombie but the wait that collects it. */
  lemma StepZombie(s: State, idle: nat, a: Action, t: State, c: nat)
    requires Inv(s, idle) && Enabled(s, idle, a) && Step(s, idle, a, t) && Families(s)
    requires c < |s.tasks| && s.tasks[c].state == Zombie
    ensures |t.tasks| == |s.tasks|
    ensures if Collects(s, a, c) then t.tasks[c].state == Unused else t.tasks[c] == s.tasks[c]
  {
    hide QueueOk, StacksOk, Reschedule, Elapse, Doze, Terminate, FindChild, Families, SameFamilies;
    match a
    case Tick =>
      TickSame(s, idle);
      ElapseKeeps(s, idle);
      if Expired(Elapse(s)) {
        ExpirySame(s, idle);
      }
      SameAt(s, t, c);
    case Yield =>
      SwitchSame(s, idle);
      SameAt(s, t, c);
    case Sleep(ms) =>
      SleepSame(s, ms, idle);
      SameAt(s, t, c);
    case Exit(status) =>
      ExitSame(s, status, idle);
      SameAt(s, t, c);
    case NewTask(kind, memory) => AllocKeeps(s, idle);
    case ForkTask(memory) => AllocKeeps(s, idle);
    case Reap(pid) =>
      WaitFinds(s, a, c);
      var f := FindChild(s.tasks, s.tasks[s.current].children, pid);
      if f != NIL {
        var k := FirstIndex(s.tasks, s.tasks[s.current].children, pid);
        ChildFacts(s, s.current, k);
      }
  }

  lemma ChildFacts(s: State, i: nat, k: nat)
    requires Families(s) && i < |s.tasks| && s.tasks[i].state != Unused && k < |s.tasks[i].children|
    ensures ChildOk(s, i, k)
  {
  }

  /** A task that exits keeps its number and status until they are collected. */
  lemma {:induction false} StatusKept(ss: seq<State>, acts: seq<Action>, idle: nat, k: nat, status: int, l: nat)
    requires Run(ss, acts, idle) && Families(ss[0]) && k < l < |ss| && acts[k] == Exit(status)
    requires ss[k].current < |ss[k].tasks|
    requires forall m :: k < m < l ==> !Collects(ss[m], acts[m], ss[k].current)
    ensures var c := ss[k].current;
            c < |ss[l].tasks| && ss[l].tasks[c] == ss[k].tasks[c].(exitStatus := status, state := Zombie)
  {
    hide Inv, Enabled, Families, Collects, Terminate, Reschedule;
    FamiliesHold(ss, acts, idle, l - 1);
    assert Follows(ss, acts, idle, l - 1);
    if l == k + 1 {
      ExitStep(ss[k], idle, status, ss[l]);
    } else {
      hide Step;
      StatusKept(ss, acts, idle, k, status, l - 1);
      StepZombie(ss[l - 1], idle, acts[l - 1], ss[l], ss[k].current);
    }
  }

  lemma ExitStep(s: State, idle: nat, status: int, t: State)
    requires Inv(s, idle) && Enabled(s, idle, Exit(status)) && Step(s, idle, Exit(status), t)
    ensures s.current < |t.tasks| && t.tasks[s.current] == s.tasks[s.current].(exitStatus := status, state := Zombie)
  {
    ExitSame(s, status, idle);
  }

  /**
   The first wait for a child after its exit, however much happens between, finds it and sees the status it exited
   with; then its entry is free again.
   */
  lemma WaitSeesStatus(ss: seq<State>, acts: seq<Action>, idle: nat, k: nat, status: int, l: nat)
    requires Run(ss, acts, idle) && Families(ss[0]) && k < l < |acts| && acts[k] == Exit(status)
    requires ss[k].current < |ss[k].tasks|
    requires forall m :: k < m < l ==> !Collects(ss[m], acts[m], ss[k].current)
    requires Collects(ss[l], acts[l], ss[k].current)
    ensures var c, s := ss[k].current, ss[l];
            && FindChild(s.tasks, s.tasks[s.current].children, acts[l].pid) == c
            && s.tasks[c].exitStatus == status && acts[l].pid == ss[k].tasks[c].pid
            && c < |ss[l + 1].tasks| && ss[l + 1].tasks[c].state == Unused
  {
    StatusKept(ss, acts, idle, k, status, l);
    FamiliesHold(ss, acts, idle, l);
    assert Follows(ss, acts, idle, l);
    hide Step, Enabled, Families, StacksOk, QueueOk;
    WaitFinds(ss[l], acts[l], ss[k].current);
    StepZombie(ss[l], idle, acts[l], ss[l + 1], ss[k].current);
  }
}
