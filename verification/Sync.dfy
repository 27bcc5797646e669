/** Semaphores and mutexes (kernel/threading/sync.c) over wait lists that sleep_on pushes to and wake_up
    pops from. Each step is one section under the object's lock, so a sequence of steps is an
    interleaving of tasks. A task inside sem_wait or mutex_acquire is either on the wait list or about
    to test the object, for the first time or again after it has been woken. */
module Sync {
  import opened Scheduler

  type TaskId = nat

  datatype Step = Enter(task: TaskId) | Attempt(task: TaskId) | Give(task: TaskId)

  /** No task occurs twice. */
  ghost predicate NoRepeats(s: seq<TaskId>) {
    forall i, j :: 0 <= i < j < |s| ==> s[i] != s[j]
  }

  // ---- semaphores ----

  /** `trying` are the tasks about to test the count, `woken` those of them that have slept. */
  datatype Sem = Sem(count: int, waitList: seq<TaskId>, initial: int, signals: nat, completed: nat, trying: set<TaskId>, woken: set<TaskId>)

  predicate SemMay(s: Sem, e: Step) {
    match e
    case Enter(t) => t !in s.trying && t !in s.waitList
    case Attempt(t) => t in s.trying
    case Give(_) => true
  }

  /** What one section of sem_wait or sem_signal does. */
  function SemNext(s: Sem, e: Step): Sem
    requires SemMay(s, e)
  {
    match e
    case Enter(t) => s.(trying := s.trying + {t})
    case Attempt(t) =>
      var left := s.(trying := s.trying - {t}, woken := s.woken - {t});
      if s.count > 0 then left.(count := s.count - 1, completed := s.completed + 1) else left.(waitList := [t] + s.waitList)
    case Give(_) =>
      var more := s.(count := s.count + 1, signals := s.signals + 1);
      if s.waitList == [] then more
      else more.(waitList := s.waitList[1..], trying := s.trying + {s.waitList[0]}, woken := s.woken + {s.waitList[0]})
  }

  /** The count is what it started with plus signals minus completed waits. While a task waits, at least
      `count` woken tasks are about to test again: no signal is lost. */
  ghost predicate SemInv(s: Sem) {
    && s.initial >= 0 && s.count == s.initial + s.signals - s.completed && s.count >= 0
    && NoRepeats(s.waitList) && s.woken <= s.trying && (forall t :: t in s.waitList ==> t !in s.trying)
    && (s.waitList != [] ==> |s.woken| >= s.count)
  }

  lemma SemKept(s: Sem, e: Step)
    requires SemInv(s) && SemMay(s, e)
    ensures SemInv(SemNext(s, e))
  {
    var s' := SemNext(s, e);
    if e.Give? && s.waitList != [] {
      var t := s.waitList[0];
      assert t in s.waitList && t !in s.woken;
      assert forall i :: 0 < i < |s.waitList| ==> s.waitList[i] != t;
      assert |s.woken + {t}| == |s.woken| + 1;
    }
    if e.Attempt? && e.task in s.woken {
      assert |s.woken - {e.task}| == |s.woken| - 1;
    }
  }

  /** A run: each step is one that its task can take. */
  ghost predicate SemRun(s: Sem, run: seq<Step>)
    decreases run
  {
    run == [] || (SemMay(s, run[0]) && SemRun(SemNext(s, run[0]), run[1..]))
  }

  ghost function SemEnd(s: Sem, run: seq<Step>): Sem
    requires SemRun(s, run)
    decreases run
  {
    if run == [] then s else SemEnd(SemNext(s, run[0]), run[1..])
  }

  /** Over every interleaving of any number of tasks, from sem_init on. */
  lemma {:induction false} SemAlways(s: Sem, run: seq<Step>)
    requires SemInv(s) && SemRun(s, run)
    ensures SemInv(SemEnd(s, run)) && SemEnd(s, run).initial == s.initial
    decreases run
  {
    if run != [] {
      SemKept(s, run[0]);
      SemAlways(SemNext(s, run[0]), run[1..]);
    }
  }

  /** `n` woken tasks test in a row, and each completes. */
  ghost predicate Drains(s: Sem, run: seq<Step>, n: nat) {
    && |run| == n && SemRun(s, run) && SemEnd(s, run).completed == s.completed + n
    && forall i :: 0 <= i < n ==> run[i].Attempt? && run[i].task in s.woken
  }

  /** If a task waits while there are units, that many woken tasks in a row can complete. */
  lemma {:induction false} SemProgress(s: Sem, n: nat)
    requires SemInv(s) && s.waitList != [] && n <= s.count
    ensures exists run :: Drains(s, run, n)
    decreases n
  {
    if n == 0 {
      assert Drains(s, [], 0);
    } else {
      var t :| t in s.woken;
      var s1 := SemNext(s, Attempt(t));
      SemKept(s, Attempt(t));
      SemProgress(s1, n - 1);
      var rest :| Drains(s1, rest, n - 1);
      var run := [Attempt(t)] + rest;
      assert run[1..] == rest && run[0] == Attempt(t);
      assert SemRun(s, run) && SemEnd(s, run) == SemEnd(s1, rest);
      assert Drains(s, run, n);
    }
  }

  /** A semaphore on the scheduler: its wait list is one of the scheduler's. */
  class Semaphore {
    const tasks: Tasks
    const queue: nat
    var count: int
    ghost var initial: int
    ghost var signals: nat
    ghost var completed: nat
    ghost var trying: set<TaskId>
    ghost var woken: set<TaskId>

    ghost function St(): Sem
      requires queue in tasks.waiting
      reads this, tasks
    {
      Sem(count, tasks.waiting[queue], initial, signals, completed, trying, woken)
    }

    /** The semaphore's invariant over the scheduler's wait list; and every task about to test it,
        woken ones among them, is ready or running and so in the run queue of its priority. */
    ghost predicate Valid()
      reads this, tasks, tasks.heads, tasks.tails, tasks.active
    {
      tasks.Valid() && queue in tasks.waiting && SemInv(St()) && AllRunnable(tasks.tasks, trying)
    }

    /** sem_init, on an empty wait list. */
    constructor (tasks: Tasks, queue: nat, count: nat)
      requires tasks.Valid() && queue in tasks.waiting && tasks.waiting[queue] == []
      ensures Valid() && this.tasks == tasks && this.queue == queue && St() == Sem(count, [], count, 0, 0, {}, {})
    {
      this.tasks, this.queue, this.count := tasks, queue, count;
      initial, signals, completed, trying, woken := count, 0, 0, {}, {};
    }

    /** The current task enters sem_wait. */
    ghost method Begin()
      requires Valid() && tasks.current in tasks.tasks && Runnable(tasks.tasks[tasks.current]) && tasks.current !in trying
      modifies this`trying
      ensures Valid() && SemMay(old(St()), Enter(tasks.current)) && St() == SemNext(old(St()), Enter(tasks.current))
    {
      hide SemNext, SemInv, QueuesOk, TasksOk, WaitsOk, WaitChain;
      NotWaiting(tasks.tasks, tasks.queues, tasks.waiting, tasks.sleeping, queue, tasks.current);
      SemKept(St(), Enter(tasks.current));
      EnterIs(St(), tasks.current);
      trying := trying + {tasks.current};
    }

    /** One pass of the loop of sem_wait by the current task. */
    method Test() returns (done: bool)
      requires Valid() && tasks.current in trying
      modifies this, tasks, tasks.heads, tasks.tails, tasks.active
      ensures Valid() && SemMay(old(St()), Attempt(old(tasks.current))) && St() == SemNext(old(St()), Attempt(old(tasks.current)))
      ensures (done <==> old(count) > 0) && tasks.current == old(tasks.current)
      ensures done ==> tasks.tasks == old(tasks.tasks) && tasks.queues == old(tasks.queues)
    {
      hide SemInv, QueuesOk, TasksOk, WaitsOk, WaitChain, AllRunnable;
      ghost var s, t := St(), tasks.current;
      SemKept(s, Attempt(t));
      Fewer(tasks.tasks, trying, t);
      IsRunnable(tasks.tasks, trying, t);
      trying, woken := trying - {t}, woken - {t};
      if count > 0 {
        count := count - 1;
        completed := completed + 1;
        return true;
      }
      ghost var was := tasks.tasks;
      Listed(tasks.tasks, tasks.waits, tasks.waiting, queue);
      ghost var i := tasks.SleepOn(queue);
      StillRunnable(was, tasks.tasks, trying, t);
      return false;
    }

    /** sem_signal: the task it wakes goes to its run queue. */
    method Signal(t: TaskId)
      requires Valid()
      modifies this, tasks, tasks.heads, tasks.tails, tasks.active
      ensures Valid() && St() == SemNext(old(St()), Give(t)) && tasks.current == old(tasks.current)
    {
      hide SemInv, QueuesOk, TasksOk, WaitsOk, WaitChain, AllRunnable;
      ghost var s, was := St(), tasks.tasks;
      SemKept(s, Give(t));
      count := count + 1;
      signals := signals + 1;
      Listed(tasks.tasks, tasks.waits, tasks.waiting, queue);
      tasks.WakeUp(queue);
      if s.waitList != [] {
        trying, woken := trying + {s.waitList[0]}, woken + {s.waitList[0]};
        Woken(was, tasks.tasks, s.trying, s.waitList[0]);
      }
    }

    /** A switch to another task changes nothing of the semaphore. */
    method Switch()
      requires Valid() && tasks.current in tasks.tasks && |tasks.queues| == COUNT && tasks.queues[IDLE] != []
      modifies tasks, tasks.heads, tasks.tails, tasks.active
      ensures Valid() && St() == old(St())
    {
      hide SemInv, QueuesOk, TasksOk, WaitsOk, WaitChain, AllRunnable;
      ghost var was := tasks.tasks;
      ghost var top := tasks.Schedule();
      Ran(was, tasks.tasks, trying, tasks.current);
    }

    /** Nor do other wait lists, as long as no task about to test the semaphore is put to sleep. */
    method OtherSleep(other: nat)
      requires Valid() && other in tasks.waits && other != queue && tasks.current in tasks.tasks && Runnable(tasks.tasks[tasks.current])
      requires tasks.current !in trying
      modifies tasks, tasks.heads, tasks.tails, tasks.active
      ensures Valid() && St() == old(St())
    {
      hide SemInv, QueuesOk, TasksOk, WaitsOk, WaitChain, AllRunnable;
      ghost var was := tasks.tasks;
      ghost var i := tasks.SleepOn(other);
      StillRunnable(was, tasks.tasks, trying, tasks.current);
    }

    method OtherWake(other: nat)
      requires Valid() && other in tasks.waiting && other in tasks.waits && other != queue
      modifies tasks, tasks.heads, tasks.tails, tasks.active
      ensures Valid() && St() == old(St())
    {
      hide SemInv, QueuesOk, TasksOk, WaitsOk, WaitChain, AllRunnable;
      Listed(tasks.tasks, tasks.waits, tasks.waiting, queue);
      ghost var was, list := tasks.tasks, tasks.waiting[other];
      tasks.WakeUp(other);
      if list != [] {
        Woken(was, tasks.tasks, trying, list[0]);
      }
    }
  }

  ghost predicate AllRunnable(tasks: map<nat, Task>, s: set<TaskId>) {
    forall t :: t in s ==> t in tasks && Runnable(tasks[t])
  }

  /** A runnable task is in its run queue and on no wait list. */
  lemma NotWaiting(tasks: map<nat, Task>, queues: seq<seq<nat>>, waiting: map<nat, seq<nat>>, sleeping: seq<nat>, q: nat, t: TaskId)
    requires TasksOk(tasks, queues, waiting, sleeping) && q in waiting && t in tasks && Runnable(tasks[t])
    ensures t !in waiting[q] && tasks[t].priority < |queues| && t in queues[tasks[t].priority]
  {
    assert TaskOk(t, tasks[t], queues, waiting, sleeping);
  }

  lemma Listed(tasks: map<nat, Task>, waits: map<nat, nat>, waiting: map<nat, seq<nat>>, q: nat)
    requires WaitsOk(tasks, waits, waiting) && q in waiting
    ensures q in waits && waits.Keys == waiting.Keys
  {
  }

  lemma IsRunnable(tasks: map<nat, Task>, s: set<TaskId>, t: TaskId)
    requires AllRunnable(tasks, s) && t in s
    ensures t in tasks && Runnable(tasks[t])
  {
  }

  lemma EnterIs(s: Sem, t: TaskId)
    requires SemMay(s, Enter(t))
    ensures SemNext(s, Enter(t)) == s.(trying := s.trying + {t})
  {
  }

  lemma Fewer(tasks: map<nat, Task>, s: set<TaskId>, t: TaskId)
    requires AllRunnable(tasks, s)
    ensures AllRunnable(tasks, s - {t})
  {
  }

  lemma StillRunnable(was: map<nat, Task>, tasks: map<nat, Task>, s: set<TaskId>, t: TaskId)
    requires AllRunnable(was, s) && t !in s && forall x :: x in was && x != t ==> x in tasks && tasks[x] == was[x]
    ensures AllRunnable(tasks, s)
  {
  }

  lemma Woken(was: map<nat, Task>, tasks: map<nat, Task>, s: set<TaskId>, t: TaskId)
    requires AllRunnable(was, s) && t in tasks && tasks[t].state == Ready && forall x :: x in was && x != t ==> x in tasks && tasks[x] == was[x]
    ensures AllRunnable(tasks, s) && AllRunnable(tasks, s + {t})
  {
  }

  lemma Ran(was: map<nat, Task>, tasks: map<nat, Task>, s: set<TaskId>, t: TaskId)
    requires AllRunnable(was, s) && t in was && t in tasks && (tasks[t] == was[t] || tasks[t].state == Running)
    requires forall x :: x in was && x != t ==> x in tasks && tasks[x] == was[x]
    ensures AllRunnable(tasks, s)
  {
  }

  // ---- mutexes ----

  datatype Lock = Lock(locked: bool, waitList: seq<TaskId>, holders: set<TaskId>, trying: set<TaskId>, woken: set<TaskId>)

  /** A mutex that is locked is released only by the task that holds it. */
  predicate LockMay(s: Lock, e: Step) {
    match e
    case Enter(t) => t !in s.trying && t !in s.waitList && t !in s.holders
    case Attempt(t) => t in s.trying
    case Give(t) => t in s.holders || !s.locked
  }

  function LockNext(s: Lock, e: Step): Lock {
    match e
    case Enter(t) => s.(trying := s.trying + {t})
    case Attempt(t) =>
      var left := s.(trying := s.trying - {t}, woken := s.woken - {t});
      if !s.locked then left.(locked := true, holders := s.holders + {t}) else left.(waitList := [t] + s.waitList)
    case Give(t) =>
      var open := s.(locked := false, holders := s.holders - {t});
      if s.waitList == [] then open
      else open.(waitList := s.waitList[1..], trying := s.trying + {s.waitList[0]}, woken := s.woken + {s.waitList[0]})
  }

  /** At most one task holds the mutex, and one does exactly while it is locked. While it is free and a
      task waits, some woken task is about to test it again. */
  ghost predicate LockInv(s: Lock) {
    && |s.holders| <= 1 && (s.locked <==> s.holders != {})
    && NoRepeats(s.waitList) && s.woken <= s.trying && (forall t :: t in s.waitList ==> t !in s.trying && t !in s.holders)
    && s.holders !! s.trying
    && (!s.locked && s.waitList != [] ==> s.woken != {})
  }

  lemma LockKept(s: Lock, e: Step)
    requires LockInv(s) && LockMay(s, e)
    ensures LockInv(LockNext(s, e))
  {
    if e.Give? {
      assert e.task in s.holders ==> |s.holders - {e.task}| == |s.holders| - 1;
      if s.waitList != [] {
        assert s.waitList[0] in s.waitList;
        assert forall i :: 0 < i < |s.waitList| ==> s.waitList[i] != s.waitList[0];
      }
    }
  }

  /** mutex_release does not look who calls it: a release by a task that does not hold the mutex keeps
      its invariant exactly if no task holds it. */
  lemma ForeignReleaseIff(s: Lock, t: TaskId)
    requires LockInv(s) && t !in s.holders
    ensures LockInv(LockNext(s, Give(t))) <==> !s.locked
  {
    assert s.holders - {t} == s.holders;
    if !s.locked {
      LockKept(s, Give(t));
    }
  }

  /** Task 2 releases what task 1 holds, and task 3 gets in beside it. */
  lemma ForeignRelease()
    ensures
      var s := Lock(true, [], {1}, {3}, {});
      LockInv(s) && LockNext(LockNext(s, Give(2)), Attempt(3)).holders == {1, 3}
  {
    var s := Lock(true, [], {1}, {3}, {});
    assert s.holders - {2} == {1};
    assert {1} + {3} == {1, 3};
  }

  ghost predicate LockRun(s: Lock, run: seq<Step>)
    decreases run
  {
    run == [] || (LockMay(s, run[0]) && LockRun(LockNext(s, run[0]), run[1..]))
  }

  ghost function LockEnd(s: Lock, run: seq<Step>): Lock
    requires LockRun(s, run)
    decreases run
  {
    if run == [] then s else LockEnd(LockNext(s, run[0]), run[1..])
  }

  /** Mutual exclusion over every interleaving, from mutex_init on. */
  lemma {:induction false} LockAlways(s: Lock, run: seq<Step>)
    requires LockInv(s) && LockRun(s, run)
    ensures LockInv(LockEnd(s, run))
    decreases run
  {
    if run != [] {
      LockKept(s, run[0]);
      LockAlways(LockNext(s, run[0]), run[1..]);
    }
  }

  /** A mutex on the scheduler. */
  class Mutex {
    const tasks: Tasks
    const queue: nat
    var locked: bool
    ghost var holders: set<TaskId>
    ghost var trying: set<TaskId>
    ghost var woken: set<TaskId>

    ghost function St(): Lock
      requires queue in tasks.waiting
      reads this, tasks
    {
      Lock(locked, tasks.waiting[queue], holders, trying, woken)
    }

    /** As for a semaphore: the wait list is the scheduler's, and tasks about to test are runnable. */
    ghost predicate Valid()
      reads this, tasks, tasks.heads, tasks.tails, tasks.active
    {
      tasks.Valid() && queue in tasks.waiting && LockInv(St()) && AllRunnable(tasks.tasks, trying)
    }

    /** mutex_init, on an empty wait list. */
    constructor (tasks: Tasks, queue: nat)
      requires tasks.Valid() && queue in tasks.waiting && tasks.waiting[queue] == []
      ensures Valid() && this.tasks == tasks && this.queue == queue && St() == Lock(false, [], {}, {}, {})
    {
      this.tasks, this.queue, locked := tasks, queue, false;
      holders, trying, woken := {}, {}, {};
    }

    /** The current task, which does not hold the mutex, enters mutex_acquire. */
    ghost method Begin()
      requires Valid() && tasks.current in tasks.tasks && Runnable(tasks.tasks[tasks.current])
      requires tasks.current !in trying && tasks.current !in holders
      modifies this`trying
      ensures Valid() && LockMay(old(St()), Enter(tasks.current)) && St() == LockNext(old(St()), Enter(tasks.current))
    {
      hide LockInv, QueuesOk, TasksOk, WaitsOk, WaitChain;
      NotWaiting(tasks.tasks, tasks.queues, tasks.waiting, tasks.sleeping, queue, tasks.current);
      LockKept(St(), Enter(tasks.current));
      trying := trying + {tasks.current};
    }

    /** One pass of the loop of mutex_acquire by the current task. */
    method Test() returns (done: bool)
      requires Valid() && tasks.current in trying
      modifies this, tasks, tasks.heads, tasks.tails, tasks.active
      ensures Valid() && LockMay(old(St()), Attempt(old(tasks.current))) && St() == LockNext(old(St()), Attempt(old(tasks.current)))
      ensures (done <==> !old(locked)) && tasks.current == old(tasks.current)
    {
      hide LockInv, QueuesOk, TasksOk, WaitsOk, WaitChain, AllRunnable;
      ghost var s, t := St(), tasks.current;
      LockKept(s, Attempt(t));
      Fewer(tasks.tasks, trying, t);
      IsRunnable(tasks.tasks, trying, t);
      trying, woken := trying - {t}, woken - {t};
      if !locked {
        locked := true;
        holders := holders + {t};
        return true;
      }
      ghost var was := tasks.tasks;
      Listed(tasks.tasks, tasks.waits, tasks.waiting, queue);
      ghost var i := tasks.SleepOn(queue);
      StillRunnable(was, tasks.tasks, trying, t);
      return false;
    }

    /** mutex_release: the invariant survives exactly if the caller held the mutex or nobody did. */
    method Release(t: TaskId)
      requires Valid()
      modifies this, tasks, tasks.heads, tasks.tails, tasks.active
      ensures tasks.Valid() && queue in tasks.waiting && St() == LockNext(old(St()), Give(t))
      ensures Valid() <==> LockMay(old(St()), Give(t))
    {
      hide LockInv, QueuesOk, TasksOk, WaitsOk, WaitChain, AllRunnable;
      ghost var s, was := St(), tasks.tasks;
      if LockMay(s, Give(t)) {
        LockKept(s, Give(t));
      } else {
        ForeignReleaseIff(s, t);
      }
      locked := false;
      holders := holders - {t};
      Listed(tasks.tasks, tasks.waits, tasks.waiting, queue);
      tasks.WakeUp(queue);
      if s.waitList != [] {
        trying, woken := trying + {s.waitList[0]}, woken + {s.waitList[0]};
        Woken(was, tasks.tasks, s.trying, s.waitList[0]);
      }
    }

    /** A switch to another task changes nothing of the mutex. */
    method Switch()
      requires Valid() && tasks.current in tasks.tasks && |tasks.queues| == COUNT && tasks.queues[IDLE] != []
      modifies tasks, tasks.heads, tasks.tails, tasks.active
      ensures Valid() && St() == old(St())
    {
      hide LockInv, QueuesOk, TasksOk, WaitsOk, WaitChain, AllRunnable;
      ghost var was := tasks.tasks;
      ghost var top := tasks.Schedule();
      Ran(was, tasks.tasks, trying, tasks.current);
    }
  }
}
