/** The ready queue as an intrusive doubly linked list over the entries of the task table. */
module ReadyList {
  import opened Common
  import opened SchedulerSteps

  /** An entry of the task table: the control block and its queue links. */
  datatype Task = Task(info: Info, next: nat, prev: nat)

  /** The control blocks of a table. */
  ghost function Infos(tab: seq<Task>): (r: seq<Info>)
    ensures |r| == |tab| && forall i :: 0 <= i < |tab| ==> r[i] == tab[i].info
  {
    seq(|tab|, i requires 0 <= i < |tab| => tab[i].info)
  }

  ghost function NextOf(q: seq<nat>, k: nat): nat {
    if k + 1 < |q| then q[k + 1] else NIL
  }

  ghost function PrevOf(q: seq<nat>, k: nat): nat
    requires k <= |q|
  {
    if k > 0 then q[k - 1] else NIL
  }

  ghost function First(q: seq<nat>): nat {
    if q == [] then NIL else q[0]
  }

  ghost function Last(q: seq<nat>): nat {
    if q == [] then NIL else q[|q| - 1]
  }

  ghost predicate LinkAt(tab: seq<Task>, q: seq<nat>, k: nat)
    requires k < |q|
  {
    q[k] < |tab| && tab[q[k]].next == NextOf(q, k) && tab[q[k]].prev == PrevOf(q, k)
  }

  /** The list that starts at `head` and ends at `tail` is the queue, read either way. */
  ghost predicate Links(tab: seq<Task>, q: seq<nat>, head: nat, tail: nat) {
    && Distinct(q) && head == First(q) && tail == Last(q)
    && forall k: nat :: k < |q| ==> LinkAt(tab, q, k)
  }

  /** Changes to control blocks do not touch the list. */
  lemma SameLinks(tab: seq<Task>, after: seq<Task>, q: seq<nat>, head: nat, tail: nat)
    requires Links(tab, q, head, tail) && |after| == |tab|
    requires forall i :: 0 <= i < |tab| ==> after[i].next == tab[i].next && after[i].prev == tab[i].prev
    ensures Links(after, q, head, tail)
  {
    forall k: nat | k < |q|
      ensures LinkAt(after, q, k)
    {
      assert LinkAt(tab, q, k);
    }
  }

  /** The table after `i` was linked behind the tail. */
  ghost function Appended(tab: seq<Task>, tail: nat, i: nat): seq<Task>
    requires i < |tab| && (tail == NIL || tail < |tab|)
  {
    var linked := tab[i := tab[i].(next := NIL, prev := tail)];
    if tail == NIL then linked else linked[tail := linked[tail].(next := i)]
  }

  lemma AppendLinks(tab: seq<Task>, q: seq<nat>, head: nat, tail: nat, i: nat)
    requires Links(tab, q, head, tail) && i < |tab| <= TASK_MAX && i !in q
    ensures tail == NIL <==> q == []
    ensures tail == NIL || tail < |tab|
    ensures Links(Appended(tab, tail, i), q + [i], if tail == NIL then i else head, i)
  {
    forall k: nat | k < |q|
      ensures LinkAt(tab, q, k) && q[k] < |tab|
    {
      assert LinkAt(tab, q, k);
    }
    var r := q + [i];
    var after := Appended(tab, tail, i);
    assert forall k :: 0 <= k < |q| ==> r[k] == q[k];
    forall k: nat, l: nat | k < l < |r|
      ensures Differ(r, k, l)
    {
      assert l < |q| ==> Differ(q, k, l);
    }
    forall k: nat | k < |r|
      ensures LinkAt(after, r, k)
    {
      if k < |q| {
        assert LinkAt(tab, q, k);
        assert k != |q| - 1 ==> Differ(q, k, |q| - 1);
      }
    }
  }

  /** The table after `i` was taken out of the list, with its links cleared. */
  ghost function Removed(tab: seq<Task>, i: nat): seq<Task>
    requires i < |tab| && (tab[i].prev == NIL || tab[i].prev < |tab|) && (tab[i].next == NIL || tab[i].next < |tab|)
  {
    var a := if tab[i].prev == NIL then tab else tab[tab[i].prev := tab[tab[i].prev].(next := tab[i].next)];
    var b := if tab[i].next == NIL then a else a[tab[i].next := a[tab[i].next].(prev := tab[i].prev)];
    b[i := b[i].(next := NIL, prev := NIL)]
  }

  lemma LinkFacts(tab: seq<Task>, q: seq<nat>, head: nat, tail: nat, k: nat)
    requires Links(tab, q, head, tail) && k < |q| && |tab| <= TASK_MAX
    ensures q[k] < |tab| && tab[q[k]].next == NextOf(q, k) && tab[q[k]].prev == PrevOf(q, k)
    ensures k + 1 < |q| ==> q[k + 1] < |tab| && q[k + 1] != q[k]
    ensures k > 0 ==> q[k - 1] < |tab| && q[k - 1] != q[k]
    ensures 0 < k < |q| - 1 ==> q[k - 1] != q[k + 1]
  {
    assert LinkAt(tab, q, k);
    assert k + 1 < |q| ==> LinkAt(tab, q, k + 1) && Differ(q, k, k + 1);
    assert k > 0 ==> LinkAt(tab, q, k - 1) && Differ(q, k - 1, k);
    assert 0 < k < |q| - 1 ==> Differ(q, k - 1, k + 1);
  }

  lemma RemoveLinks(tab: seq<Task>, q: seq<nat>, head: nat, tail: nat, k: nat)
    requires Links(tab, q, head, tail) && k < |q| && |tab| <= TASK_MAX
    ensures var i := q[k];
            && i < |tab|
            && (tab[i].prev == NIL || tab[i].prev < |tab|) && (tab[i].next == NIL || tab[i].next < |tab|)
            && Links(Removed(tab, i), q[..k] + q[k + 1..],
                     if tab[i].prev == NIL then tab[i].next else head, if tab[i].next == NIL then tab[i].prev else tail)
  {
    LinkFacts(tab, q, head, tail, k);
    var i := q[k];
    var r := q[..k] + q[k + 1..];
    var after := Removed(tab, i);
    assert forall j :: 0 <= j < k ==> r[j] == q[j];
    assert forall j :: k <= j < |r| ==> r[j] == q[j + 1];
    forall j: nat, l: nat | j < l < |r|
      ensures Differ(r, j, l)
    {
      assert Differ(q, if j < k then j else j + 1, if l < k then l else l + 1);
    }
    forall j: nat | j < |r|
      ensures LinkAt(after, r, j)
    {
      RemovedAt(tab, q, head, tail, k, j);
    }
  }

  lemma RemovedAt(tab: seq<Task>, q: seq<nat>, head: nat, tail: nat, k: nat, j: nat)
    requires Links(tab, q, head, tail) && k < |q| && |tab| <= TASK_MAX && j < |q| - 1
    requires q[k] < |tab| && (tab[q[k]].prev == NIL || tab[q[k]].prev < |tab|)
             && (tab[q[k]].next == NIL || tab[q[k]].next < |tab|)
    ensures LinkAt(Removed(tab, q[k]), q[..k] + q[k + 1..], j)
  {
    LinkFacts(tab, q, head, tail, k);
    var m := if j < k then j else j + 1;
    LinkFacts(tab, q, head, tail, m);
    assert (q[..k] + q[k + 1..])[j] == q[m];
    DifferAt(q, m, k);
    if k > 0 && m != k - 1 {
      DifferAt(q, m, k - 1);
    }
    if k + 1 < |q| && m != k + 1 {
      DifferAt(q, m, k + 1);
    }
  }
}
