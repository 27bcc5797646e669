/** Run queues, wait lists and the sleep queue (kernel/threading/sched.c). Every method is one section
    under the scheduler's lock. Stopping and continuing tasks, and sleeping with a timeout on a wait
    list, are not part of this model. */
module Scheduler {
  import opened Base
  import opened LinkLists

  const COUNT: nat := 5
  const IDLE: nat := 0

  datatype TaskState = Running | Ready | Exited | Blocked | Sleeping

  datatype Task = Task(state: TaskState, priority: nat, nextWait: nat, wakeTick: nat)

  predicate Runnable(t: Task) {
    t.state.Running? || t.state.Ready?
  }

  // ---- run queues ----

  /** Links agree in both directions, tails are tails, and a priority's bit is set iff its queue has a task. */
  ghost predicate QueuesOk(heads: seq<nat>, tails: seq<nat>, links: Links, active: seq<bool>, queues: seq<seq<nat>>) {
    && |heads| == |tails| == |active| == |queues| == COUNT && Family(links, heads, queues)
    && forall p :: 0 <= p < COUNT ==> tails[p] == At(queues[p], |queues[p]| - 1) && (active[p] <==> queues[p] != [])
  }

  // ---- wait lists ----

  ghost predicate WaitOk(tasks: map<nat, Task>, s: seq<nat>, i: nat)
    requires i < |s|
  {
    s[i] != NULL && s[i] in tasks && tasks[s[i]].nextWait == At(s, i + 1)
  }

  ghost predicate WaitChain(tasks: map<nat, Task>, head: nat, s: seq<nat>) {
    head == At(s, 0) && forall i :: 0 <= i < |s| ==> WaitOk(tasks, s, i)
  }

  lemma {:induction false} WaitDistinct(tasks: map<nat, Task>, head: nat, s: seq<nat>, i: nat, j: nat)
    requires WaitChain(tasks, head, s) && i < j < |s|
    ensures s[i] != s[j]
    decreases |s| - j
  {
    assert WaitOk(tasks, s, i) && WaitOk(tasks, s, j) && WaitOk(tasks, s, i + 1);
    if j + 1 < |s| {
      WaitDistinct(tasks, head, s, i + 1, j + 1);
    }
  }

  lemma WaitUntouched(tasks: map<nat, Task>, tasks': map<nat, Task>, head: nat, s: seq<nat>)
    requires WaitChain(tasks, head, s)
    requires forall x :: x in s && x in tasks ==> x in tasks' && tasks'[x].nextWait == tasks[x].nextWait
    ensures WaitChain(tasks', head, s)
  {
    forall i | 0 <= i < |s|
      ensures WaitOk(tasks', s, i)
    {
      assert WaitOk(tasks, s, i);
    }
  }

  lemma WaitPush(tasks: map<nat, Task>, head: nat, s: seq<nat>, t: nat, task: Task)
    requires WaitChain(tasks, head, s) && t != NULL && t !in s && task.nextWait == head
    ensures WaitChain(tasks[t := task], t, [t] + s)
  {
    var w, tasks' := [t] + s, tasks[t := task];
    forall i | 0 <= i < |w|
      ensures WaitOk(tasks', w, i)
    {
      if i > 0 {
        assert WaitOk(tasks, s, i - 1) && s[i - 1] in s;
      }
    }
  }

  lemma WaitPop(tasks: map<nat, Task>, head: nat, s: seq<nat>, task: Task)
    requires WaitChain(tasks, head, s) && s != []
    ensures head == s[0] && head in tasks && head !in s[1..] && WaitChain(tasks[head := task], tasks[head].nextWait, s[1..])
  {
    assert WaitOk(tasks, s, 0);
    var w, tasks' := s[1..], tasks[head := task];
    forall i | 0 <= i < |w|
      ensures WaitOk(tasks', w, i) && w[i] != head
    {
      WaitDistinct(tasks, head, s, 0, i + 1);
      assert WaitOk(tasks, s, i + 1);
    }
  }

  // ---- where tasks are ----

  ghost predicate Waits(waiting: map<nat, seq<nat>>, t: nat) {
    exists q :: q in waiting && t in waiting[q]
  }

  ghost predicate TaskOk(t: nat, task: Task, queues: seq<seq<nat>>, waiting: map<nat, seq<nat>>, sleeping: seq<nat>) {
    && t != NULL && task.priority < |queues|
    && (Runnable(task) ==> t in queues[task.priority])
    && (task.state.Blocked? ==> Waits(waiting, t))
    && (task.state.Sleeping? ==> t in sleeping)
  }

  /** Each task is in the queue of its priority, on one wait list or on the sleep queue, as its state
      says, and nowhere else; or it has exited. */
  ghost predicate TasksOk(tasks: map<nat, Task>, queues: seq<seq<nat>>, waiting: map<nat, seq<nat>>, sleeping: seq<nat>) {
    && (forall t :: t in tasks ==> TaskOk(t, tasks[t], queues, waiting, sleeping))
    && (forall p, x :: 0 <= p < |queues| && x in queues[p] ==> x in tasks && tasks[x].priority == p && Runnable(tasks[x]))
    && (forall q, x :: q in waiting && x in waiting[q] ==> x in tasks && tasks[x].state.Blocked?)
    && (forall x :: x in sleeping ==> x in tasks && tasks[x].state.Sleeping?)
    && (forall q, r, x :: q in waiting && r in waiting && x in waiting[q] && x in waiting[r] ==> q == r)
  }

  ghost predicate WaitsOk(tasks: map<nat, Task>, waits: map<nat, nat>, waiting: map<nat, seq<nat>>) {
    waits.Keys == waiting.Keys && forall q :: q in waits ==> WaitChain(tasks, waits[q], waiting[q])
  }

  /** The highest priority with a task. */
  ghost predicate IsTop(queues: seq<seq<nat>>, p: nat) {
    p < |queues| && queues[p] != [] && forall r :: p < r < |queues| ==> queues[r] == []
  }

  /** rotate_queue: the head goes to the back. */
  function Rotated(q: seq<nat>): (r: seq<nat>)
    ensures |r| == |q| && forall x :: x in r <==> x in q
  {
    if |q| < 2 then q else q[1..] + [q[0]]
  }

  // ---- changes of place ----

  /** A runnable task leaves its queue for a wait list. */
  lemma ToWait(tasks: map<nat, Task>, queues: seq<seq<nat>>, waiting: map<nat, seq<nat>>, sleeping: seq<nat>,
               t: nat, task: Task, rest: seq<nat>, q: nat)
    requires TasksOk(tasks, queues, waiting, sleeping) && t in tasks && Runnable(tasks[t]) && q in waiting
    requires task.state == Blocked && task.priority == tasks[t].priority < |queues|
    requires forall x :: x in rest <==> x in queues[task.priority] && x != t
    ensures TasksOk(tasks[t := task], queues[task.priority := rest], waiting[q := [t] + waiting[q]], sleeping)
  {
    var tasks', queues', waiting' := tasks[t := task], queues[task.priority := rest], waiting[q := [t] + waiting[q]];
    assert t in waiting'[q];
    forall x | x in tasks'
      ensures TaskOk(x, tasks'[x], queues', waiting', sleeping)
    {
      assert x in tasks && TaskOk(x, tasks[x], queues, waiting, sleeping);
      if x != t && tasks[x].state.Blocked? {
        var r :| r in waiting && x in waiting[r];
        assert r in waiting' && x in waiting'[r];
      }
    }
  }

  /** A blocked task goes from the head of its wait list to the back of its queue. */
  lemma FromWait(tasks: map<nat, Task>, queues: seq<seq<nat>>, waiting: map<nat, seq<nat>>, sleeping: seq<nat>, t: nat, task: Task, q: nat)
    requires TasksOk(tasks, queues, waiting, sleeping) && q in waiting && waiting[q] != [] && waiting[q][0] == t && t !in waiting[q][1..]
    requires t in tasks && task.state == Ready && task.priority == tasks[t].priority < |queues|
    ensures TasksOk(tasks[t := task], queues[task.priority := queues[task.priority] + [t]], waiting[q := waiting[q][1..]], sleeping)
  {
    var tasks', queues', waiting' := tasks[t := task], queues[task.priority := queues[task.priority] + [t]], waiting[q := waiting[q][1..]];
    assert t in waiting[q];
    forall x | x in waiting[q]
      ensures x == t || x in waiting'[q]
    {
      var i :| 0 <= i < |waiting[q]| && waiting[q][i] == x;
      assert i > 0 ==> waiting[q][1..][i - 1] == x;
    }
    forall x | x in tasks'
      ensures TaskOk(x, tasks'[x], queues', waiting', sleeping)
    {
      assert x in tasks && TaskOk(x, tasks[x], queues, waiting, sleeping);
      if x != t && tasks[x].state.Blocked? {
        var r :| r in waiting && x in waiting[r];
        assert r in waiting' && x in waiting'[r];
      }
    }
  }

  lemma ToSleep(tasks: map<nat, Task>, queues: seq<seq<nat>>, waiting: map<nat, seq<nat>>, sleeping: seq<nat>, t: nat, task: Task, rest: seq<nat>)
    requires TasksOk(tasks, queues, waiting, sleeping) && t in tasks && Runnable(tasks[t])
    requires task.state == Sleeping && task.priority == tasks[t].priority < |queues|
    requires forall x :: x in rest <==> x in queues[task.priority] && x != t
    ensures TasksOk(tasks[t := task], queues[task.priority := rest], waiting, [t] + sleeping)
  {
    var tasks', queues' := tasks[t := task], queues[task.priority := rest];
    forall x | x in tasks'
      ensures TaskOk(x, tasks'[x], queues', waiting, [t] + sleeping)
    {
      assert x in tasks && TaskOk(x, tasks[x], queues, waiting, sleeping);
    }
  }

  lemma ToExit(tasks: map<nat, Task>, queues: seq<seq<nat>>, waiting: map<nat, seq<nat>>, sleeping: seq<nat>, t: nat, task: Task, rest: seq<nat>)
    requires TasksOk(tasks, queues, waiting, sleeping) && t in tasks && Runnable(tasks[t])
    requires task.state == Exited && task.priority == tasks[t].priority < |queues|
    requires forall x :: x in rest <==> x in queues[task.priority] && x != t
    ensures TasksOk(tasks[t := task], queues[task.priority := rest], waiting, sleeping)
  {
    var tasks', queues' := tasks[t := task], queues[task.priority := rest];
    forall x | x in tasks'
      ensures TaskOk(x, tasks'[x], queues', waiting, sleeping)
    {
      assert x in tasks && TaskOk(x, tasks[x], queues, waiting, sleeping);
    }
  }

  /** A task enters the queue of its priority, from the sleep queue or newly made. */
  lemma ToQueue(tasks: map<nat, Task>, queues: seq<seq<nat>>, waiting: map<nat, seq<nat>>, sleeping: seq<nat>, sleeping': seq<nat>, t: nat, task: Task)
    requires TasksOk(tasks, queues, waiting, sleeping) && t != NULL && task.state == Ready && task.priority < |queues|
    requires t in tasks ==> tasks[t].state.Sleeping?
    requires forall x :: x in sleeping' <==> x in sleeping && x != t
    ensures TasksOk(tasks[t := task], queues[task.priority := queues[task.priority] + [t]], waiting, sleeping')
  {
    var tasks', queues' := tasks[t := task], queues[task.priority := queues[task.priority] + [t]];
    forall x | x in tasks'
      ensures TaskOk(x, tasks'[x], queues', waiting, sleeping')
    {
      assert x in tasks ==> TaskOk(x, tasks[x], queues, waiting, sleeping);
    }
  }

  /** Reordering a queue moves no task, and a ready task may start running. */
  lemma Reordered(tasks: map<nat, Task>, queues: seq<seq<nat>>, waiting: map<nat, seq<nat>>, sleeping: seq<nat>, p: nat, q: seq<nat>)
    requires TasksOk(tasks, queues, waiting, sleeping) && p < |queues| && forall x :: x in q <==> x in queues[p]
    ensures TasksOk(tasks, queues[p := q], waiting, sleeping)
  {
    forall x | x in tasks
      ensures TaskOk(x, tasks[x], queues[p := q], waiting, sleeping)
    {
      assert TaskOk(x, tasks[x], queues, waiting, sleeping);
    }
  }

  lemma Started(tasks: map<nat, Task>, queues: seq<seq<nat>>, waiting: map<nat, seq<nat>>, sleeping: seq<nat>, t: nat)
    requires TasksOk(tasks, queues, waiting, sleeping) && t in tasks && tasks[t].state == Ready
    ensures TasksOk(tasks[t := tasks[t].(state := Running)], queues, waiting, sleeping)
  {
    var tasks' := tasks[t := tasks[t].(state := Running)];
    forall x | x in tasks'
      ensures TaskOk(x, tasks'[x], queues, waiting, sleeping)
    {
      assert TaskOk(x, tasks[x], queues, waiting, sleeping);
    }
  }

  lemma NoMember(links: Links, heads: seq<nat>, queues: seq<seq<nat>>, p: nat, i: nat, queues': seq<seq<nat>>)
    requires Family(links, heads, queues) && p < |queues| && i < |queues[p]| && queues' == queues[p := Removed(queues[p], i)]
    ensures forall r :: 0 <= r < |queues'| ==> queues[p][i] !in queues'[r]
    ensures forall x :: x in Removed(queues[p], i) <==> x in queues[p] && x != queues[p][i]
  {
    RemovedGone(links, heads[p], queues[p], i);
    forall r | 0 <= r < |queues'|
      ensures queues[p][i] !in queues'[r]
    {
      if r != p {
        Apart(links, heads, queues, p, r);
        assert queues[p][i] in queues[p];
      }
    }
  }

  /** A node in no list may have any links. */
  lemma Loose(links: Links, heads: seq<nat>, queues: seq<seq<nat>>, t: nat, link: Link)
    requires Family(links, heads, queues) && forall r :: 0 <= r < |queues| ==> t !in queues[r]
    ensures Family(links[t := link], heads, queues)
  {
    hide ListOk;
    forall r | 0 <= r < |queues|
      ensures ListOk(links[t := link], heads[r], queues[r])
    {
      Untouched(links, links[t := link], heads[r], queues[r]);
    }
  }

  lemma Neighbours(links: Links, heads: seq<nat>, queues: seq<seq<nat>>, p: nat, i: nat)
    requires Family(links, heads, queues) && p < |queues| && i < |queues[p]|
    ensures |heads| == |queues| && queues[p][i] in links && queues[p][i] != NULL
    ensures
      var t, q := queues[p][i], queues[p];
      && links[t] == Link(At(q, i + 1), At(q, i - 1))
      && (links[t].prev == NULL <==> i == 0) && (links[t].next == NULL <==> i == |q| - 1)
      && (links[t].prev != NULL ==> links[t].prev in links) && (links[t].next != NULL ==> links[t].next in links)
      && links[t].prev != t && links[t].next != t && (links[t].next != NULL ==> links[t].next != links[t].prev)
      && heads[p] == q[0] && (i > 0 ==> heads[p] != t) && (i < |q| - 1 ==> q[|q| - 1] != t)
  {
    var h, q := heads[p], queues[p];
    Node(links, h, q, i);
    Ends(links, h, q, i);
    if i > 0 {
      Node(links, h, q, i - 1);
      Distinct(links, h, q, i - 1, i);
      Distinct(links, h, q, 0, i);
    }
    if i + 1 < |q| {
      Node(links, h, q, i + 1);
      Distinct(links, h, q, i, i + 1);
      Distinct(links, h, q, i, |q| - 1);
      if i > 0 {
        Distinct(links, h, q, i - 1, i + 1);
      }
    }
  }

  lemma FirstAndLast(links: Links, heads: seq<nat>, queues: seq<seq<nat>>, p: nat)
    requires Family(links, heads, queues) && p < |queues|
    ensures |heads| == |queues| && heads[p] == At(queues[p], 0)
    ensures queues[p] != [] ==> heads[p] != NULL && queues[p][|queues[p]| - 1] in links && queues[p][|queues[p]| - 1] != NULL
  {
    if queues[p] != [] {
      Node(links, heads[p], queues[p], 0);
      Node(links, heads[p], queues[p], |queues[p]| - 1);
    }
  }

  lemma QueueCount(heads: seq<nat>, tails: seq<nat>, links: Links, active: seq<bool>, queues: seq<seq<nat>>)
    requires QueuesOk(heads, tails, links, active, queues)
    ensures |heads| == |tails| == |active| == |queues| == COUNT && Family(links, heads, queues)
  {
  }

  lemma HeadOf(tasks: map<nat, Task>, head: nat, s: seq<nat>)
    requires WaitChain(tasks, head, s)
    ensures head == NULL <==> s == []
    ensures s != [] ==> head == s[0] && head in tasks
  {
    assert s != [] ==> WaitOk(tasks, s, 0);
  }

  /** A task on no wait list may change its link. */
  lemma AllWaitsKept(tasks: map<nat, Task>, tasks': map<nat, Task>, waits: map<nat, nat>, waiting: map<nat, seq<nat>>, sleepHead: nat,
                     queues: seq<seq<nat>>, sleeping: seq<nat>, t: nat)
    requires TasksOk(tasks, queues, waiting, sleeping) && WaitsOk(tasks, waits, waiting) && WaitChain(tasks, sleepHead, sleeping)
    requires t in tasks ==> Runnable(tasks[t])
    requires forall x :: x in tasks && x != t ==> x in tasks' && tasks'[x].nextWait == tasks[x].nextWait
    ensures WaitsOk(tasks', waits, waiting) && WaitChain(tasks', sleepHead, sleeping)
  {
    hide WaitChain;
    forall q | q in waits
      ensures WaitChain(tasks', waits[q], waiting[q])
    {
      WaitUntouched(tasks, tasks', waits[q], waiting[q]);
    }
    WaitUntouched(tasks, tasks', sleepHead, sleeping);
  }

  lemma PushWait(tasks: map<nat, Task>, waits: map<nat, nat>, waiting: map<nat, seq<nat>>, sleepHead: nat,
                 queues: seq<seq<nat>>, sleeping: seq<nat>, q: nat, t: nat, task: Task)
    requires TasksOk(tasks, queues, waiting, sleeping) && WaitsOk(tasks, waits, waiting) && WaitChain(tasks, sleepHead, sleeping)
    requires q in waits && t in tasks && Runnable(tasks[t]) && task.nextWait == waits[q]
    ensures WaitsOk(tasks[t := task], waits[q := t], waiting[q := [t] + waiting[q]]) && WaitChain(tasks[t := task], sleepHead, sleeping)
  {
    hide WaitChain;
    assert TaskOk(t, tasks[t], queues, waiting, sleeping);
    AllWaitsKept(tasks, tasks[t := task], waits, waiting, sleepHead, queues, sleeping, t);
    WaitPush(tasks, waits[q], waiting[q], t, task);
  }

  lemma PopWait(tasks: map<nat, Task>, waits: map<nat, nat>, waiting: map<nat, seq<nat>>, sleepHead: nat,
                queues: seq<seq<nat>>, sleeping: seq<nat>, q: nat, task: Task)
    requires TasksOk(tasks, queues, waiting, sleeping) && WaitsOk(tasks, waits, waiting) && WaitChain(tasks, sleepHead, sleeping)
    requires q in waits && waiting[q] != []
    ensures
      var t := waits[q];
      && t == waiting[q][0] && t in tasks && t !in waiting[q][1..]
      && WaitsOk(tasks[t := task], waits[q := tasks[t].nextWait], waiting[q := waiting[q][1..]]) && WaitChain(tasks[t := task], sleepHead, sleeping)
  {
    hide WaitChain;
    WaitPop(tasks, waits[q], waiting[q], task);
    var t := waits[q];
    assert t in waiting[q];
    forall r | r in waits && r != q
      ensures WaitChain(tasks[t := task], waits[r], waiting[r])
    {
      WaitUntouched(tasks, tasks[t := task], waits[r], waiting[r]);
    }
    WaitUntouched(tasks, tasks[t := task], sleepHead, sleeping);
  }

  lemma RotatedShort(q: seq<nat>)
    ensures |q| < 2 ==> Rotated(q) == q
  {
  }

  lemma RotatedIs(q: seq<nat>)
    requires |q| >= 2
    ensures Rotated(q) == Removed(q, 0) + [q[0]]
  {
  }

  /** A queue after `k` rotations. */
  ghost function Turned(q: seq<nat>, k: nat): seq<nat>
    requires k <= |q|
  {
    q[k..] + q[..k]
  }

  /** The head after `k` rotations. */
  ghost function Nth(q: seq<nat>, k: nat): nat
    requires k <= |q| && q != []
  {
    if k < |q| then q[k] else q[0]
  }

  lemma Turns(q: seq<nat>, k: nat)
    requires k <= |q| && q != []
    ensures |Turned(q, k)| == |q| && Turned(q, 0) == q == Turned(q, |q|)
    ensures Turned(q, k)[0] == Nth(q, k)
    ensures k < |q| ==> Rotated(Turned(q, k)) == Turned(q, k + 1)
  {
  }

  lemma PickedAll(q: seq<nat>, picked: seq<nat>)
    requires q != [] && |picked| == |q| && forall j :: 0 <= j < |q| ==> picked[j] == Nth(q, j + 1)
    ensures picked == q[1..] + [q[0]]
  {
  }

  lemma TopStays(queues: seq<seq<nat>>, p: nat, q: seq<nat>)
    requires IsTop(queues, p) && q != [] && |queues| == COUNT && queues[IDLE] != []
    ensures IsTop(queues[p := q], p) && queues[p := q][IDLE] != []
  {
  }

  lemma TopUnique(queues: seq<seq<nat>>, p: nat, r: nat)
    requires IsTop(queues, p) && IsTop(queues, r)
    ensures p == r
  {
  }

  lemma HeadPriority(tasks: map<nat, Task>, queues: seq<seq<nat>>, waiting: map<nat, seq<nat>>, sleeping: seq<nat>, p: nat)
    requires TasksOk(tasks, queues, waiting, sleeping) && p < |queues| && queues[p] != []
    ensures queues[p][0] in tasks && tasks[queues[p][0]].priority == p
  {
    assert queues[p][0] in queues[p];
  }

  // ---- the sleep queue ----

  /** Those still asleep at `now`, in order. */
  ghost function Still(tasks: map<nat, Task>, s: seq<nat>, now: nat): seq<nat> {
    if s == [] then []
    else Still(tasks, s[..|s| - 1], now) + if s[|s| - 1] in tasks && now >= tasks[s[|s| - 1]].wakeTick then [] else [s[|s| - 1]]
  }

  /** The queues once those whose time has come have been appended, in order. */
  ghost function Risen(tasks: map<nat, Task>, queues: seq<seq<nat>>, s: seq<nat>, now: nat): seq<seq<nat>> {
    if s == [] then queues
    else
      var t := s[|s| - 1];
      var r := Risen(tasks, queues, s[..|s| - 1], now);
      if t in tasks && now >= tasks[t].wakeTick && tasks[t].priority < |r|
      then r[tasks[t].priority := r[tasks[t].priority] + [t]] else r
  }

  /** `k` of the sleepers have been looked at; `t` is next and `prev` the last that stayed. */
  ghost predicate Rising(was: map<nat, Task>, tasks: map<nat, Task>, queues0: seq<seq<nat>>, queues: seq<seq<nat>>,
                         all: seq<nat>, sleeping: seq<nat>, now: nat, k: nat, prev: nat, t: nat) {
    && k <= |all| && t == At(all, k)
    && Sleepers(was, all)
    && sleeping == Still(was, all[..k], now) + all[k..] && prev == At(Still(was, all[..k], now), |Still(was, all[..k], now)| - 1)
    && queues == Risen(was, queues0, all[..k], now)
    && Awakened(was, tasks, all, now, k)
  }

  ghost predicate Sleepers(was: map<nat, Task>, all: seq<nat>) {
    && (forall i :: 0 <= i < |all| ==> all[i] in was && all[i] != NULL)
    && (forall i, j :: 0 <= i < j < |all| ==> all[i] != all[j])
  }

  /** Of the first `k` sleepers those whose time has come are ready. */
  ghost predicate Awakened(was: map<nat, Task>, tasks: map<nat, Task>, all: seq<nat>, now: nat, k: nat) {
    && k <= |all| && tasks.Keys == was.Keys
    && (forall x :: x in tasks ==> tasks[x].wakeTick == was[x].wakeTick && tasks[x].priority == was[x].priority)
    && (forall x :: x in tasks ==> tasks[x].state == if x in all[..k] && now >= was[x].wakeTick then Ready else was[x].state)
  }

  lemma AwakenedNext(was: map<nat, Task>, tasks: map<nat, Task>, tasks': map<nat, Task>, all: seq<nat>, now: nat, k: nat)
    requires Awakened(was, tasks, all, now, k) && k < |all| && all[k] in tasks && tasks'.Keys == tasks.Keys
    requires tasks'[all[k]].state == if now >= tasks[all[k]].wakeTick then Ready else tasks[all[k]].state
    requires forall x :: x in tasks ==> tasks'[x].wakeTick == tasks[x].wakeTick && tasks'[x].priority == tasks[x].priority
    requires forall x :: x in tasks && x != all[k] ==> tasks'[x].state == tasks[x].state
    ensures Awakened(was, tasks', all, now, k + 1)
  {
    assert all[..k + 1] == all[..k] + [all[k]];
  }

  /** The tasks once sleeper `j` has been taken out and replaced by `task`. */
  ghost function Unslept(tasks: map<nat, Task>, s: seq<nat>, j: nat, task: Task): map<nat, Task>
    requires j < |s| && s[j] in tasks
  {
    var next := tasks[s[j]].nextWait;
    var tasks1 := if j > 0 && s[j - 1] in tasks then tasks[s[j - 1] := tasks[s[j - 1]].(nextWait := next)] else tasks;
    tasks1[s[j] := task]
  }

  lemma WaitRemoveAt(tasks: map<nat, Task>, head: nat, s: seq<nat>, j: nat, task: Task, i: nat)
    requires WaitChain(tasks, head, s) && j < |s| && s[j] in tasks && i < |s| - 1
    ensures WaitOk(Unslept(tasks, s, j, task), Removed(s, j), i) && Removed(s, j)[i] != s[j]
  {
    hide Removed, WaitChain;
    WaitNode(tasks, head, s, j);
    var i' := if i < j then i else i + 1;
    WaitNode(tasks, head, s, i');
    if i' < j {
      WaitDistinct(tasks, head, s, i', j);
      WaitNode(tasks, head, s, j - 1);
      if i' < j - 1 {
        WaitDistinct(tasks, head, s, i', j - 1);
      }
    } else {
      WaitDistinct(tasks, head, s, j, i');
      if j > 0 {
        WaitDistinct(tasks, head, s, j - 1, i');
      }
    }
    RemovedAt(s, j, i);
    RemovedAt(s, j, i + 1);
  }

  lemma WaitNode(tasks: map<nat, Task>, head: nat, s: seq<nat>, i: nat)
    requires WaitChain(tasks, head, s) && i < |s|
    ensures WaitOk(tasks, s, i)
  {
  }

  lemma WaitRemove(tasks: map<nat, Task>, head: nat, s: seq<nat>, j: nat, task: Task)
    requires WaitChain(tasks, head, s) && j < |s|
    ensures s[j] in tasks && (j > 0 ==> s[j - 1] in tasks && s[j - 1] != s[j] && s[j - 1] != NULL) && tasks[s[j]].nextWait == At(s, j + 1)
    ensures WaitChain(Unslept(tasks, s, j, task), if j == 0 then tasks[s[j]].nextWait else head, Removed(s, j))
    ensures forall x :: x in Removed(s, j) <==> x in s && x != s[j]
  {
    hide Unslept, Removed;
    WaitNode(tasks, head, s, j);
    if j > 0 {
      WaitNode(tasks, head, s, j - 1);
      WaitDistinct(tasks, head, s, j - 1, j);
    }
    RemovedAt(s, j, 0);
    var r, tasks' := Removed(s, j), Unslept(tasks, s, j, task);
    forall i | 0 <= i < |r|
      ensures WaitOk(tasks', r, i) && r[i] != s[j]
    {
      WaitRemoveAt(tasks, head, s, j, task, i);
    }
    RemovedAt(s, j, 0);
    RemovedMembers(s, j);
  }

  lemma RemovedMembers(s: seq<nat>, j: nat)
    requires j < |s| && s[j] !in Removed(s, j)
    ensures forall x :: x in Removed(s, j) <==> x in s && x != s[j]
  {
    var r := Removed(s, j);
    forall x | x in s && x != s[j]
      ensures x in r
    {
      var i :| 0 <= i < |s| && s[i] == x;
      assert r[if i < j then i else i - 1] == x;
    }
  }

  lemma ListOf(tasks: map<nat, Task>, waits: map<nat, nat>, waiting: map<nat, seq<nat>>, q: nat)
    requires WaitsOk(tasks, waits, waiting) && q in waits
    ensures q in waiting && WaitChain(tasks, waits[q], waiting[q])
  {
  }

  lemma WaiterPlace(tasks: map<nat, Task>, queues: seq<seq<nat>>, waiting: map<nat, seq<nat>>, sleeping: seq<nat>, q: nat, t: nat)
    requires TasksOk(tasks, queues, waiting, sleeping) && q in waiting && waiting[q] != [] && t == waiting[q][0]
    ensures t != NULL && t in tasks && tasks[t].priority < |queues| && forall p :: 0 <= p < |queues| ==> t !in queues[p]
  {
    assert t in waiting[q];
    assert TaskOk(t, tasks[t], queues, waiting, sleeping);
  }

  lemma NewTask(tasks: map<nat, Task>, queues: seq<seq<nat>>, waiting: map<nat, seq<nat>>, sleeping: seq<nat>, t: nat)
    requires TasksOk(tasks, queues, waiting, sleeping) && t !in tasks
    ensures t !in sleeping && forall p :: 0 <= p < |queues| ==> t !in queues[p]
  {
  }

  lemma QueuePlace(tasks: map<nat, Task>, queues: seq<seq<nat>>, waiting: map<nat, seq<nat>>, sleeping: seq<nat>, t: nat)
    requires TasksOk(tasks, queues, waiting, sleeping) && t in tasks && Runnable(tasks[t])
    ensures t != NULL && tasks[t].priority < |queues| && t in queues[tasks[t].priority] && t !in sleeping
  {
    assert TaskOk(t, tasks[t], queues, waiting, sleeping);
  }

  lemma SleeperPlace(tasks: map<nat, Task>, queues: seq<seq<nat>>, waiting: map<nat, seq<nat>>, sleeping: seq<nat>, t: nat)
    requires TasksOk(tasks, queues, waiting, sleeping) && t in sleeping
    ensures t != NULL && t in tasks && tasks[t].state.Sleeping? && tasks[t].priority < |queues|
    ensures forall p :: 0 <= p < |queues| ==> t !in queues[p]
  {
    assert TaskOk(t, tasks[t], queues, waiting, sleeping);
  }

  /** Taking a sleeper out keeps every task where it should be. */
  lemma RisenOk(tasks: map<nat, Task>, tasks': map<nat, Task>, waits: map<nat, nat>, waiting: map<nat, seq<nat>>, queues: seq<seq<nat>>,
                sleeping: seq<nat>, sleeping': seq<nat>, j: nat, t: nat, ready: Task)
    requires TasksOk(tasks, queues, waiting, sleeping) && WaitsOk(tasks, waits, waiting)
    requires j < |sleeping| && sleeping[j] == t && t in tasks && ready == tasks[t].(state := Ready, nextWait := NULL)
    requires j > 0 ==> sleeping[j - 1] in tasks && sleeping[j - 1] != t
    requires tasks' == Unslept(tasks, sleeping, j, ready) && forall x :: x in sleeping' <==> x in sleeping && x != t
    ensures tasks[t].priority < |queues|
    ensures TasksOk(tasks', queues[tasks[t].priority := queues[tasks[t].priority] + [t]], waiting, sleeping') && WaitsOk(tasks', waits, waiting)
  {
    assert t in sleeping;
    assert TaskOk(t, tasks[t], queues, waiting, sleeping);
    var tasks1 := if j > 0 then tasks[sleeping[j - 1] := tasks[sleeping[j - 1]].(nextWait := tasks[t].nextWait)] else tasks;
    assert TasksOk(tasks1, queues, waiting, sleeping) by {
      Relinked(tasks, tasks1, queues, waiting, sleeping);
    }
    ToQueue(tasks1, queues, waiting, sleeping, sleeping', t, ready);
    hide WaitChain;
    assert j > 0 ==> sleeping[j - 1] in sleeping;
    forall q | q in waits
      ensures WaitChain(tasks', waits[q], waiting[q])
    {
      WaitUntouched(tasks, tasks', waits[q], waiting[q]);
    }
  }

  /** Links do not matter to where tasks are. */
  lemma Relinked(tasks: map<nat, Task>, tasks': map<nat, Task>, queues: seq<seq<nat>>, waiting: map<nat, seq<nat>>, sleeping: seq<nat>)
    requires TasksOk(tasks, queues, waiting, sleeping) && tasks'.Keys == tasks.Keys
    requires forall x :: x in tasks ==> tasks'[x].state == tasks[x].state && tasks'[x].priority == tasks[x].priority
    ensures TasksOk(tasks', queues, waiting, sleeping)
  {
    forall x | x in tasks'
      ensures TaskOk(x, tasks'[x], queues, waiting, sleeping)
    {
      assert TaskOk(x, tasks[x], queues, waiting, sleeping);
    }
  }

  lemma RiseStart(tasks: map<nat, Task>, queues: seq<seq<nat>>, all: seq<nat>, now: nat, head: nat)
    requires WaitChain(tasks, head, all)
    ensures Rising(tasks, tasks, queues, queues, all, all, now, 0, NULL, head)
  {
    forall i | 0 <= i < |all|
      ensures all[i] in tasks && all[i] != NULL
    {
      assert WaitOk(tasks, all, i);
    }
    forall i, j | 0 <= i < j < |all|
      ensures all[i] != all[j]
    {
      WaitDistinct(tasks, head, all, i, j);
    }
    assert all[..0] == [] && all[0..] == all;
    assert Sleepers(tasks, all) && Awakened(tasks, tasks, all, now, 0);
  }

  lemma RiseFacts(was: map<nat, Task>, tasks: map<nat, Task>, queues0: seq<seq<nat>>, queues: seq<seq<nat>>,
                  all: seq<nat>, sleeping: seq<nat>, now: nat, k: nat, prev: nat, t: nat, waiting: map<nat, seq<nat>>, sleepHead: nat)
    requires Rising(was, tasks, queues0, queues, all, sleeping, now, k, prev, t) && t != NULL && WaitChain(tasks, sleepHead, sleeping)
    ensures k < |all| && t == all[k] && t in tasks && t in was && tasks[t].wakeTick == was[t].wakeTick
    ensures
      var j := |Still(was, all[..k], now)|;
      j < |sleeping| && sleeping[j] == t && t in sleeping && prev == At(sleeping, j - 1) && tasks[t].nextWait == At(all, k + 1)
  {
    hide Still, Risen;
    var j := |Still(was, all[..k], now)|;
    assert sleeping[j] == all[k..][0];
    assert WaitOk(tasks, sleeping, j);
    assert k + 1 < |all| ==> sleeping[j + 1] == all[k..][1];
  }

  lemma StillSnoc(was: map<nat, Task>, queues: seq<seq<nat>>, all: seq<nat>, now: nat, k: nat)
    requires k < |all| && all[k] in was
    ensures Still(was, all[..k + 1], now) == Still(was, all[..k], now) + if now >= was[all[k]].wakeTick then [] else [all[k]]
    ensures
      var r := Risen(was, queues, all[..k], now);
      Risen(was, queues, all[..k + 1], now) ==
        if now >= was[all[k]].wakeTick && was[all[k]].priority < |r| then r[was[all[k]].priority := r[was[all[k]].priority] + [all[k]]] else r
    ensures forall x :: x in all[..k + 1] <==> x in all[..k] || x == all[k]
  {
    assert all[..k + 1][..k] == all[..k];
    assert all[..k + 1] == all[..k] + [all[k]];
  }

  lemma RiseKept(was: map<nat, Task>, tasks: map<nat, Task>, queues0: seq<seq<nat>>, queues: seq<seq<nat>>,
                 all: seq<nat>, sleeping: seq<nat>, now: nat, k: nat, prev: nat, t: nat)
    requires Rising(was, tasks, queues0, queues, all, sleeping, now, k, prev, t) && t != NULL && t in tasks && now < tasks[t].wakeTick
    ensures Rising(was, tasks, queues0, queues, all, sleeping, now, k + 1, t, At(all, k + 1))
  {
    hide Still, Risen, Awakened;
    AwakenedFacts(was, tasks, all, now, k);
    StillSnoc(was, queues0, all, now, k);
    AwakenedNext(was, tasks, tasks, all, now, k);
    assert all[k..] == [all[k]] + all[k + 1..];
  }

  lemma AwakenedFacts(was: map<nat, Task>, tasks: map<nat, Task>, all: seq<nat>, now: nat, k: nat)
    requires Awakened(was, tasks, all, now, k)
    ensures tasks.Keys == was.Keys && forall x :: x in tasks ==> tasks[x].wakeTick == was[x].wakeTick && tasks[x].priority == was[x].priority
  {
  }

  lemma RiseStep(was: map<nat, Task>, tasks: map<nat, Task>, tasks': map<nat, Task>, queues0: seq<seq<nat>>, queues: seq<seq<nat>>, queues': seq<seq<nat>>,
                 all: seq<nat>, sleeping: seq<nat>, sleeping': seq<nat>, now: nat, k: nat, prev: nat, t: nat, next: nat)
    requires Rising(was, tasks, queues0, queues, all, sleeping, now, k, prev, t) && t != NULL && t in tasks && now >= tasks[t].wakeTick
    requires next == At(all, k + 1) && |Still(was, all[..k], now)| < |sleeping| && sleeping' == Removed(sleeping, |Still(was, all[..k], now)|)
    requires tasks[t].priority < |queues| && queues' == queues[tasks[t].priority := queues[tasks[t].priority] + [t]]
    requires tasks'.Keys == tasks.Keys && tasks'[t].state == Ready
    requires forall x :: x in tasks ==> tasks'[x].wakeTick == tasks[x].wakeTick && tasks'[x].priority == tasks[x].priority
    requires forall x :: x in tasks && x != t ==> tasks'[x].state == tasks[x].state
    ensures Rising(was, tasks', queues0, queues', all, sleeping', now, k + 1, prev, next)
  {
    hide Still, Risen, Awakened, Removed;
    AwakenedFacts(was, tasks, all, now, k);
    StillSnoc(was, queues0, all, now, k);
    AwakenedNext(was, tasks, tasks', all, now, k);
    RemovedFirst(Still(was, all[..k], now), all, k, sleeping);
  }

  lemma RemovedFirst(kept: seq<nat>, all: seq<nat>, k: nat, sleeping: seq<nat>)
    requires k < |all| && sleeping == kept + all[k..]
    ensures |kept| < |sleeping| && Removed(sleeping, |kept|) == kept + all[k + 1..]
  {
    assert all[k..] == [all[k]] + all[k + 1..];
  }

  lemma RiseEnd(was: map<nat, Task>, tasks: map<nat, Task>, queues0: seq<seq<nat>>, queues: seq<seq<nat>>,
                all: seq<nat>, sleeping: seq<nat>, now: nat, k: nat, prev: nat)
    requires Rising(was, tasks, queues0, queues, all, sleeping, now, k, prev, NULL)
    ensures sleeping == Still(was, all, now) && queues == Risen(was, queues0, all, now) && tasks.Keys == was.Keys
    ensures forall x :: x in tasks ==> tasks[x].priority == was[x].priority && tasks[x].wakeTick == was[x].wakeTick
    ensures forall x :: x in tasks ==> tasks[x].state == if x in all && now >= was[x].wakeTick then Ready else was[x].state
  {
    hide Still, Risen;
    assert k == |all|;
    assert all[..k] == all && all[k..] == [];
  }

  /** The three updates of sched_dequeue_task. */
  lemma BypassIs(h: Links, t: nat)
    requires t in h && (h[t].prev != NULL ==> h[t].prev in h) && (h[t].next != NULL ==> h[t].next in h)
    requires h[t].next != NULL ==> h[t].next != h[t].prev
    ensures
      var h1 := if h[t].prev != NULL then h[h[t].prev := h[h[t].prev].(next := h[t].next)] else h;
      Bypass(h, t) == if h[t].next != NULL then h1[h[t].next := h1[h[t].next].(prev := h[t].prev)] else h1
  {
  }

  lemma TailOf(heads: seq<nat>, tails: seq<nat>, links: Links, active: seq<bool>, queues: seq<seq<nat>>, p: nat)
    requires QueuesOk(heads, tails, links, active, queues) && p < COUNT
    ensures tails[p] == At(queues[p], |queues[p]| - 1)
  {
  }

  /** Taking task `i` of queue `p` out keeps links, tails and priority bits in agreement. */
  lemma QueueRemoved(heads: seq<nat>, tails: seq<nat>, links: Links, active: seq<bool>, queues: seq<seq<nat>>, p: nat, i: nat)
    requires QueuesOk(heads, tails, links, active, queues) && p < COUNT && i < |queues[p]| && queues[p][i] in links
    ensures
      var t := queues[p][i];
      var next, prev := links[t].next, links[t].prev;
      var heads' := heads[p := if prev == NULL then next else heads[p]];
      QueuesOk(heads', tails[p := if next == NULL then prev else tails[p]], Bypass(links, t)[t := Link(NULL, NULL)],
               active[p := active[p] && heads'[p] != NULL], queues[p := Removed(queues[p], i)])
  {
    hide Family, Removed, Bypass;
    var q, t := queues[p], queues[p][i];
    Neighbours(links, heads, queues, p, i);
    FamilyRemove(links, heads, queues, p, i);
    NoMember(links, heads, queues, p, i, queues[p := Removed(q, i)]);
    RemovedAt(q, i, |q| - 2);
    RemovedAt(q, i, 0);
    var heads' := heads[p := if links[t].prev == NULL then links[t].next else heads[p]];
    Loose(Bypass(links, t), heads', queues[p := Removed(q, i)], t, Link(NULL, NULL));
    FirstAndLast(Bypass(links, t), heads', queues[p := Removed(q, i)], p);
  }

  class Tasks {
    const heads: array<nat>
    const tails: array<nat>
    const active: array<bool>
    var links: Links
    var tasks: map<nat, Task>
    var waits: map<nat, nat>
    var sleepHead: nat
    var current: nat
    ghost var queues: seq<seq<nat>>
    ghost var waiting: map<nat, seq<nat>>
    ghost var sleeping: seq<nat>

    ghost predicate QOk()
      reads this`links, this`queues, heads, tails, active
    {
      heads != tails && QueuesOk(heads[..], tails[..], links, active[..], queues)
    }

    ghost predicate Valid()
      reads this, heads, tails, active
    {
      && QOk() && TasksOk(tasks, queues, waiting, sleeping)
      && WaitsOk(tasks, waits, waiting) && WaitChain(tasks, sleepHead, sleeping)
    }

    /** sched_init, up to the creation of the idle task; `lists` are the wait lists in use. */
    constructor (lists: set<nat>)
      ensures Valid() && fresh(heads) && fresh(tails) && fresh(active)
      ensures tasks == map[] && queues == [[], [], [], [], []] && sleeping == [] && waiting.Keys == lists
    {
      heads := new nat[COUNT](_ => NULL);
      tails := new nat[COUNT](_ => NULL);
      active := new bool[COUNT](_ => false);
      links, tasks, sleepHead, current := map[], map[], NULL, NULL;
      waits := map q | q in lists :: NULL;
      queues, waiting, sleeping := [[], [], [], [], []], map q | q in lists :: [], [];
    }

    /** sched_enqueue_task. */
    method Enqueue(t: nat)
      requires QOk() && t != NULL && t in tasks && tasks[t].priority < COUNT && forall p :: 0 <= p < COUNT ==> t !in queues[p]
      modifies this`links, this`queues, heads, tails, active
      ensures QOk() && queues == old(queues)[tasks[t].priority := old(queues)[tasks[t].priority] + [t]]
    {
      hide Family;
      var p := tasks[t].priority;
      FirstAndLast(links, heads[..], queues, p);
      FamilyBack(links, heads[..], queues, p, t);
      ghost var was, h, tail := heads[..], links, tails[p];
      links := links[t := Link(NULL, NULL)];
      if heads[p] == NULL {
        heads[p] := t;
        tails[p] := t;
      } else {
        links := links[t := links[t].(prev := tails[p])];
        links := links[tails[p] := links[tails[p]].(next := t)];
        tails[p] := t;
      }
      active[p] := true;
      assert heads[..] == was[p := if queues[p] == [] then t else was[p]];
      assert links == Backed(h, tail, t) && tail == At(queues[p], |queues[p]| - 1);
      queues := queues[p := queues[p] + [t]];
    }

    /** sched_dequeue_task, of a task in its queue. */
    method Dequeue(t: nat, ghost i: nat)
      requires QOk() && t in tasks && tasks[t].priority < COUNT && i < |queues[tasks[t].priority]| && queues[tasks[t].priority][i] == t
      modifies this`links, this`queues, heads, tails, active
      ensures QOk() && queues == old(queues)[tasks[t].priority := Removed(old(queues)[tasks[t].priority], i)]
      ensures forall p :: 0 <= p < COUNT ==> t !in queues[p]
      ensures forall x :: x in queues[tasks[t].priority] <==> x in old(queues)[tasks[t].priority] && x != t
    {
      hide Family, Removed, QueuesOk, Bypass;
      var p := tasks[t].priority;
      ghost var h, was, last, bits := links, heads[..], tails[..], active[..];
      QueueCount(was, last, h, bits, queues);
      Neighbours(h, was, queues, p, i);
      BypassIs(h, t);
      TailOf(was, last, h, bits, queues, p);
      NoMember(h, was, queues, p, i, queues[p := Removed(queues[p], i)]);
      var next, prev := links[t].next, links[t].prev;
      if prev != NULL {
        links := links[prev := links[prev].(next := next)];
      } else if heads[p] == t {
        heads[p] := next;
      }
      if next != NULL {
        links := links[next := links[next].(prev := prev)];
      } else if tails[p] == t {
        tails[p] := prev;
      }
      links := links[t := Link(NULL, NULL)];
      if heads[p] == NULL {
        active[p] := false;
      }
      QueueRemoved(was, last, h, bits, queues, p, i);
      assert heads[..] == was[p := if prev == NULL then next else was[p]];
      assert tails[..] == last[p := if next == NULL then prev else last[p]];
      assert active[..] == bits[p := bits[p] && heads[p] != NULL];
      queues := queues[p := Removed(queues[p], i)];
    }

    /** task_create: a ready task at the back of its queue. */
    method Create(t: nat, priority: nat)
      requires Valid() && t != NULL && t !in tasks
      modifies this, heads, tails, active
      ensures Valid() && current == old(current)
      ensures
        var p := if priority >= COUNT then 2 else priority;
        tasks == old(tasks)[t := Task(Ready, p, NULL, 0)] && queues == old(queues)[p := old(queues)[p] + [t]]
      ensures waiting == old(waiting) && sleeping == old(sleeping)
    {
      hide Family, QueuesOk, WaitChain, WaitsOk, TasksOk;
      var p := if priority >= COUNT then 2 else priority;
      NewTask(tasks, queues, waiting, sleeping, t);
      QueueCount(heads[..], tails[..], links, active[..], queues);
      AllWaitsKept(tasks, tasks[t := Task(Ready, p, NULL, 0)], waits, waiting, sleepHead, queues, sleeping, t);
      ToQueue(tasks, queues, waiting, sleeping, sleeping, t, Task(Ready, p, NULL, 0));
      tasks := tasks[t := Task(Ready, p, NULL, 0)];
      Enqueue(t);
    }

    /** sleep_on: the current task blocks at the head of the wait list. */
    method SleepOn(q: nat) returns (ghost i: nat)
      requires Valid() && q in waits && current in tasks && Runnable(tasks[current])
      modifies this, heads, tails, active
      ensures Valid() && current == old(current) && sleeping == old(sleeping)
      ensures current in old(tasks) && q in old(waits) && tasks == old(tasks)[current := old(tasks)[current].(state := Blocked, nextWait := old(waits)[q])]
      ensures waiting == old(waiting)[q := [current] + old(waiting)[q]]
      ensures old(tasks)[current].priority < |old(queues)| && i < |old(queues)[old(tasks)[current].priority]|
      ensures old(queues)[old(tasks)[current].priority][i] == current
      ensures queues == old(queues)[old(tasks)[current].priority := Removed(old(queues)[old(tasks)[current].priority], i)]
    {
      hide Family, QueuesOk, WaitChain, TasksOk;
      var t := current;
      ghost var was, queues0 := tasks, queues;
      QueueCount(heads[..], tails[..], links, active[..], queues);
      QueuePlace(tasks, queues, waiting, sleeping, t);
      i :| 0 <= i < |queues[tasks[t].priority]| && queues[tasks[t].priority][i] == t;
      var task := tasks[t].(state := Blocked, nextWait := waits[q]);
      PushWait(tasks, waits, waiting, sleepHead, queues, sleeping, q, t, task);
      tasks := tasks[t := task];
      waits := waits[q := t];
      waiting := waiting[q := [t] + waiting[q]];
      Dequeue(t, i);
      ToWait(was, queues0, old(waiting), sleeping, t, task, queues[task.priority], q);
    }

    /** wake_up: the head of the wait list becomes ready at the back of its queue. */
    method WakeUp(q: nat)
      requires Valid() && q in waits
      modifies this, heads, tails, active
      ensures Valid() && current == old(current) && sleeping == old(sleeping)
      ensures old(waiting)[q] == [] ==> waiting == old(waiting) && tasks == old(tasks) && queues == old(queues)
      ensures old(waiting)[q] != [] ==>
        var t := old(waiting)[q][0];
        && waiting == old(waiting)[q := old(waiting)[q][1..]] && t in old(tasks)
        && tasks == old(tasks)[t := old(tasks)[t].(state := Ready, nextWait := NULL)]
        && old(tasks)[t].priority < |old(queues)|
        && queues == old(queues)[old(tasks)[t].priority := old(queues)[old(tasks)[t].priority] + [t]]
    {
      hide Family, QueuesOk, TasksOk, WaitsOk, WaitChain;
      ghost var was, queues0 := tasks, queues;
      QueueCount(heads[..], tails[..], links, active[..], queues);
      var t := waits[q];
      ListOf(tasks, waits, waiting, q);
      HeadOf(tasks, waits[q], waiting[q]);
      if t == NULL {
        return;
      }
      WaiterPlace(tasks, queues, waiting, sleeping, q, t);
      var task := tasks[t].(state := Ready, nextWait := NULL);
      PopWait(tasks, waits, waiting, sleepHead, queues, sleeping, q, task);
      FromWait(was, queues0, waiting, sleeping, t, task, q);
      waits := waits[q := tasks[t].nextWait];
      tasks := tasks[t := task];
      waiting := waiting[q := waiting[q][1..]];
      Enqueue(t);
    }

    /** task_exit. */
    method Exit() returns (ghost i: nat)
      requires Valid() && current in tasks && Runnable(tasks[current])
      modifies this, heads, tails, active
      ensures Valid() && current == old(current) && sleeping == old(sleeping) && waiting == old(waiting)
      ensures current in old(tasks) && tasks == old(tasks)[current := old(tasks)[current].(state := Exited)]
      ensures old(tasks)[current].priority < |old(queues)| && i < |old(queues)[old(tasks)[current].priority]|
      ensures old(queues)[old(tasks)[current].priority][i] == current
      ensures queues == old(queues)[old(tasks)[current].priority := Removed(old(queues)[old(tasks)[current].priority], i)]
    {
      hide Family, QueuesOk, WaitChain, TasksOk, WaitsOk;
      var t := current;
      ghost var was, queues0 := tasks, queues;
      QueueCount(heads[..], tails[..], links, active[..], queues);
      QueuePlace(tasks, queues, waiting, sleeping, t);
      i :| 0 <= i < |queues[tasks[t].priority]| && queues[tasks[t].priority][i] == t;
      var task := tasks[t].(state := Exited);
      AllWaitsKept(tasks, tasks[t := task], waits, waiting, sleepHead, queues, sleeping, t);
      tasks := tasks[t := task];
      Dequeue(t, i);
      ToExit(was, queues0, waiting, sleeping, t, task, queues[task.priority]);
    }

    /** task_sleep_ticks. */
    method SleepTicks(ticks: nat, now: nat) returns (ghost i: nat)
      requires Valid() && current in tasks && Runnable(tasks[current])
      modifies this, heads, tails, active
      ensures Valid() && current == old(current) && sleeping == [current] + old(sleeping) && waiting == old(waiting)
      ensures current in old(tasks)
      ensures tasks == old(tasks)[current := old(tasks)[current].(state := Sleeping, wakeTick := now + ticks, nextWait := old(sleepHead))]
      ensures old(tasks)[current].priority < |old(queues)| && i < |old(queues)[old(tasks)[current].priority]|
      ensures old(queues)[old(tasks)[current].priority][i] == current
      ensures queues == old(queues)[old(tasks)[current].priority := Removed(old(queues)[old(tasks)[current].priority], i)]
    {
      hide Family, QueuesOk, WaitChain, TasksOk, WaitsOk;
      var t := current;
      ghost var was, queues0 := tasks, queues;
      QueueCount(heads[..], tails[..], links, active[..], queues);
      QueuePlace(tasks, queues, waiting, sleeping, t);
      i :| 0 <= i < |queues[tasks[t].priority]| && queues[tasks[t].priority][i] == t;
      var task := tasks[t].(state := Sleeping, wakeTick := now + ticks, nextWait := sleepHead);
      AllWaitsKept(tasks, tasks[t := task], waits, waiting, sleepHead, queues, sleeping, t);
      WaitPush(tasks, sleepHead, sleeping, t, task);
      tasks := tasks[t := task];
      Dequeue(t, i);
      sleepHead := t;
      sleeping := [t] + sleeping;
      ToSleep(was, queues0, waiting, old(sleeping), t, task, queues[task.priority]);
    }

    /** rotate_queue. */
    method Rotate(p: nat)
      requires Valid() && p < COUNT
      modifies this`links, this`queues, heads, tails, active
      ensures Valid() && |queues| == COUNT && queues == old(queues)[p := Rotated(old(queues)[p])]
    {
      hide Family, QueuesOk, WaitChain, WaitsOk, TasksOk, Rotated, Removed;
      ghost var queues0 := queues;
      QueueCount(heads[..], tails[..], links, active[..], queues);
      FirstAndLast(links, heads[..], queues, p);
      RotatedShort(queues[p]);
      var head := heads[p];
      if head == NULL {
        assert queues == queues[p := Rotated(queues[p])];
        return;
      }
      Neighbours(links, heads[..], queues, p, 0);
      if links[head].next == NULL {
        assert queues == queues[p := Rotated(queues[p])];
        return;
      }
      HeadPriority(tasks, queues, waiting, sleeping, p);
      RotatedIs(queues[p]);
      Dequeue(head, 0);
      Enqueue(head);
      assert queues == queues0[p := Rotated(queues0[p])];
      Reordered(tasks, queues0, waiting, sleeping, p, Rotated(queues0[p]));
    }

    /** schedule: the running task's queue is rotated, and the head of the highest queue with a task is
        next; the idle task is always there. */
    method Schedule() returns (ghost top: nat)
      requires Valid() && current in tasks && |queues| == COUNT && queues[IDLE] != []
      modifies this, heads, tails, active
      ensures Valid() && |queues| == COUNT && waiting == old(waiting) && sleeping == old(sleeping)
      ensures queues == if old(tasks)[old(current)].state.Running? && old(tasks)[old(current)].priority < COUNT
        then old(queues)[old(tasks)[old(current)].priority := Rotated(old(queues)[old(tasks)[old(current)].priority])] else old(queues)
      ensures IsTop(queues, top) && current == queues[top][0]
      ensures current in tasks && tasks == old(tasks)[current := tasks[current]]
      ensures current in old(tasks) && tasks[current] == if current != old(current) then old(tasks)[current].(state := Running) else old(tasks)[current]
    {
      hide Family, QueuesOk, WaitChain, WaitsOk;
      var prev := current;
      assert TaskOk(prev, tasks[prev], queues, waiting, sleeping);
      QueueCount(heads[..], tails[..], links, active[..], queues);
      if tasks[prev].state.Running? {
        Rotate(tasks[prev].priority);
        QueueCount(heads[..], tails[..], links, active[..], queues);
      }
      var p := HighestActive();
      top := p;
      FirstAndLast(links, heads[..], queues, p);
      SwitchTo(heads[p], p);
    }

    /** The end of schedule: the chosen task runs. */
    method SwitchTo(next: nat, ghost p: nat)
      requires Valid() && p < |queues| && queues[p] != [] && next == queues[p][0]
      modifies this`current, this`tasks
      ensures Valid() && current == next && next in old(tasks) && tasks.Keys == old(tasks).Keys
      ensures tasks == old(tasks)[next := tasks[next]]
      ensures tasks[next] == if next != old(current) then old(tasks)[next].(state := Running) else old(tasks)[next]
    {
      hide Family, QueuesOk, WaitChain, WaitsOk;
      assert next in queues[p];
      assert next in tasks && Runnable(tasks[next]);
      if next != current {
        current := next;
        if tasks[next].state.Ready? {
          AllWaitsKept(tasks, tasks[next := tasks[next].(state := Running)], waits, waiting, sleepHead, queues, sleeping, next);
          Started(tasks, queues, waiting, sleeping, next);
          tasks := tasks[next := tasks[next].(state := Running)];
        }
      }
    }

    /** The highest bit of the mask. */
    method HighestActive() returns (p: nat)
      requires QOk() && exists r :: 0 <= r < |queues| && queues[r] != []
      ensures IsTop(queues, p)
    {
      p := COUNT - 1;
      while p > 0 && !active[p]
        invariant p < COUNT && forall r :: p < r < COUNT ==> queues[r] == []
      {
        p := p - 1;
      }
    }

    /** Round robin: when the running task heads the highest queue, as many calls of schedule as the
        queue has tasks select each of them exactly once, in queue order. */
    method Slices(p: nat, n: nat) returns (picked: seq<nat>)
      requires Valid() && current in tasks && tasks[current].state.Running? && |queues| == COUNT && queues[IDLE] != []
      requires IsTop(queues, p) && current == queues[p][0] && n == |queues[p]|
      modifies this, heads, tails, active
      ensures Valid() && |queues| == COUNT && queues == old(queues) && current == old(current)
      ensures picked == old(queues)[p][1..] + [old(queues)[p][0]]
    {
      hide Family, QueuesOk, WaitChain, WaitsOk, TasksOk, Turned;
      picked := [];
      ghost var q := queues[p];
      ghost var was := queues;
      Turns(q, 0);
      HeadPriority(tasks, queues, waiting, sleeping, p);
      for k := 0 to n
        invariant Valid() && queues == was[p := Turned(q, k)] && current == Nth(q, k) && current in tasks
        invariant tasks[current].state.Running? && tasks[current].priority == p
        invariant |picked| == k && forall j :: 0 <= j < k ==> picked[j] == Nth(q, j + 1)
      {
        Slice(p, q, was, k);
        picked := picked + [current];
      }
      PickedAll(q, picked);
      Turns(q, n);
    }

    /** One of them. */
    method Slice(ghost p: nat, ghost q: seq<nat>, ghost was: seq<seq<nat>>, ghost k: nat)
      requires Valid() && |was| == COUNT && IsTop(was, p) && was[IDLE] != [] && q == was[p] && k < |q|
      requires queues == was[p := Turned(q, k)] && current == Nth(q, k) && current in tasks
      requires tasks[current].state.Running? && tasks[current].priority == p
      modifies this, heads, tails, active
      ensures Valid() && queues == was[p := Turned(q, k + 1)] && current == Nth(q, k + 1) && current in tasks
      ensures tasks[current].state.Running? && tasks[current].priority == p
    {
      hide Family, QueuesOk, WaitChain, WaitsOk, TasksOk, Turned, Rotated;
      Turns(q, k);
      Turns(q, k + 1);
      TopStays(was, p, Turned(q, k));
      ghost var top := Schedule();
      TopStays(was, p, Turned(q, k + 1));
      assert queues == was[p := Turned(q, k + 1)];
      TopUnique(queues, top, p);
      HeadPriority(tasks, queues, waiting, sleeping, p);
    }

    /** One sleeper whose time has come: off the sleep queue, onto its run queue. */
    method Rise(ghost was: map<nat, Task>, ghost queues0: seq<seq<nat>>, ghost all: seq<nat>, ghost now: nat, ghost k: nat, prev: nat, t: nat)
      returns (prev': nat, t': nat)
      requires Valid() && t != NULL && t in tasks && now >= tasks[t].wakeTick
      requires Rising(was, tasks, queues0, queues, all, sleeping, now, k, prev, t)
      modifies this, heads, tails, active
      ensures Valid() && current == old(current) && waiting == old(waiting)
      ensures Rising(was, tasks, queues0, queues, all, sleeping, now, k + 1, prev', t')
    {
      hide Family, QueuesOk, WaitChain, WaitsOk, TasksOk, Rising;
      RiseFacts(was, tasks, queues0, queues, all, sleeping, now, k, prev, t, waiting, sleepHead);
      QueueCount(heads[..], tails[..], links, active[..], queues);
      ghost var tasks0, queues1 := tasks, queues;
      ghost var j := |Still(was, all[..k], now)|;
      SleeperPlace(tasks, queues, waiting, sleeping, t);
      var next := tasks[t].nextWait;
      var ready := tasks[t].(state := Ready, nextWait := NULL);
      WaitRemove(tasks, sleepHead, sleeping, j, ready);
      if prev == NULL {
        sleepHead := next;
      } else {
        tasks := tasks[prev := tasks[prev].(nextWait := next)];
      }
      tasks := tasks[t := ready];
      sleeping := Removed(sleeping, j);
      assert tasks == Unslept(tasks0, old(sleeping), j, ready);
      RisenOk(tasks0, tasks, waits, waiting, queues1, old(sleeping), sleeping, j, t, ready);
      Enqueue(t);
      RiseStep(was, tasks0, tasks, queues0, queues1, queues, all, old(sleeping), sleeping, now, k, prev, t, next);
      return prev, next;
    }

    /** sched_check_sleeping_tasks: exactly the tasks whose time has come become ready, in the order of
        the sleep queue; the others stay, in order. */
    method CheckSleeping(now: nat)
      requires Valid()
      modifies this, heads, tails, active
      ensures Valid() && current == old(current) && waiting == old(waiting)
      ensures sleeping == Still(old(tasks), old(sleeping), now) && queues == Risen(old(tasks), old(queues), old(sleeping), now)
      ensures tasks.Keys == old(tasks).Keys
      ensures forall t :: t in tasks ==> tasks[t].priority == old(tasks)[t].priority && tasks[t].wakeTick == old(tasks)[t].wakeTick
      ensures forall t :: t in tasks ==>
        tasks[t].state == if t in old(sleeping) && now >= old(tasks)[t].wakeTick then Ready else old(tasks)[t].state
    {
      hide Family, QueuesOk, WaitChain, WaitsOk, TasksOk, Still, Risen;
      var prev: nat, t := NULL, sleepHead;
      ghost var was, all := tasks, sleeping;
      ghost var k: nat := 0;
      RiseStart(tasks, queues, all, now, sleepHead);
      while t != NULL
        invariant Valid() && current == old(current) && waiting == old(waiting)
        invariant Rising(was, tasks, old(queues), queues, all, sleeping, now, k, prev, t)
        decreases |all| - k
      {
        RiseFacts(was, tasks, old(queues), queues, all, sleeping, now, k, prev, t, waiting, sleepHead);
        if now >= tasks[t].wakeTick {
          prev, t := Rise(was, old(queues), all, now, k, prev, t);
        } else {
          RiseKept(was, tasks, old(queues), queues, all, sleeping, now, k, prev, t);
          prev, t := t, tasks[t].nextWait;
        }
        k := k + 1;
      }
      RiseEnd(was, tasks, old(queues), queues, all, sleeping, now, k, prev);
    }
  }
}
