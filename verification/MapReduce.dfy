/**
 The map-reduce scheduler of gdk_mapreduce.c.

 `TaskQueue` is the shared stack of task lists, changed under `mrqlock`. The rest
 of the module is the concurrent system: any number of workers running MRworker,
 any number of callers inside MRschedule, one counting semaphore for the queue and
 one per caller. Each lock-protected section and each semaphore operation is one
 atomic action, and a run is any interleaving of actions.
 */
module MapReduce {

  /** Task number `idx` of the MRschedule call number `call`. */
  datatype Task = Task(call: nat, idx: nat)

  /** One queue slot: a task list and the index of its next task. */
  datatype Entry = Entry(tasks: seq<Task>, index: nat) {
    predicate Valid() { index < |tasks| }
  }

  // ---------------------------------------------------------------- the queue

  ghost predicate ValidQueue(q: seq<Entry>) {
    forall i :: 0 <= i < |q| ==> q[i].Valid()
  }

  /** The tasks that still have to be handed out. */
  ghost function Pending(q: seq<Entry>): multiset<Task>
    requires ValidQueue(q)
  {
    if q == [] then multiset{}
    else Pending(q[..|q| - 1]) + multiset(q[|q| - 1].tasks[q[|q| - 1].index..])
  }

  /** The task MRdequeue hands out: the next one of the list on top of the stack. */
  function Next(q: seq<Entry>): Task
    requires q != [] && q[|q| - 1].Valid()
  {
    q[|q| - 1].tasks[q[|q| - 1].index]
  }

  /** The queue MRdequeue leaves: a finished list is popped, any other advances. */
  function Rest(q: seq<Entry>): seq<Entry>
    requires q != []
  {
    var top := q[|q| - 1];
    if |top.tasks| == top.index + 1 then q[..|q| - 1]
    else q[..|q| - 1] + [top.(index := top.index + 1)]
  }

  lemma PendingPush(q: seq<Entry>, tasks: seq<Task>)
    requires ValidQueue(q) && tasks != []
    ensures ValidQueue(q + [Entry(tasks, 0)])
    ensures Pending(q + [Entry(tasks, 0)]) == Pending(q) + multiset(tasks)
  {
    assert (q + [Entry(tasks, 0)])[..|q|] == q;
    assert tasks[0..] == tasks;
  }

  lemma PendingPop(q: seq<Entry>)
    requires ValidQueue(q) && q != []
    ensures ValidQueue(Rest(q))
    ensures Pending(q) == Pending(Rest(q)) + multiset{Next(q)}
  {
    var top := q[|q| - 1];
    assert top.tasks[top.index..] == [Next(q)] + top.tasks[top.index + 1..];
    if |top.tasks| == top.index + 1 {
      assert top.tasks[top.index + 1..] == [];
    } else {
      assert Rest(q)[..|q| - 1] == q[..|q| - 1];
    }
  }

  lemma PendingEmpty(q: seq<Entry>)
    requires ValidQueue(q)
    ensures Pending(q) == multiset{} <==> q == []
  {
    if q != [] {
      PendingPop(q);
    }
  }

  /** The shared queue: `mrqueue`, `mrqsize` (the array's length) and `mrqlast`. */
  class TaskQueue {
    var slots: array<Entry>
    var last: nat

    ghost predicate Valid()
      reads this, slots
    {
      0 < slots.Length && last <= slots.Length && ValidQueue(slots[..last])
    }

    ghost function Contents(): seq<Entry>
      requires last <= slots.Length
      reads this, slots
    {
      slots[..last]
    }

    /** The locked section of MRenqueue: the array doubles when it is full. */
    method Enqueue(tasks: seq<Task>)
      requires Valid() && tasks != []
      modifies this, slots
      ensures Valid()
      ensures fresh(slots) || slots == old(slots)
      ensures Contents() == old(Contents()) + [Entry(tasks, 0)]
      ensures Pending(Contents()) == old(Pending(Contents())) + multiset(tasks)
    {
      ghost var q := slots[..last];
      if last == slots.Length {
        var bigger := new Entry[slots.Length * 2](_ => Entry(tasks, 0));
        for i := 0 to slots.Length
          modifies bigger
          invariant bigger[..i] == slots[..i]
        {
          bigger[i] := slots[i];
        }
        slots := bigger;
      }
      slots[last] := Entry(tasks, 0);
      last := last + 1;
      assert slots[..last] == q + [Entry(tasks, 0)];
      PendingPush(q, tasks);
    }

    /** The locked section of MRdequeue. */
    method Dequeue() returns (r: Task)
      requires Valid() && last > 0
      modifies this, slots
      ensures Valid() && slots == old(slots)
      ensures r == Next(old(Contents())) && Contents() == Rest(old(Contents()))
      ensures old(Pending(Contents())) == Pending(Contents()) + multiset{r}
    {
      hide Pending;
      ghost var q := slots[..last];
      PendingPop(q);
      var idx := slots[last - 1].index;
      assert q[|q| - 1] == slots[last - 1];
      r := slots[last - 1].tasks[idx];
      idx := idx + 1;
      if |slots[last - 1].tasks| == idx {
        last := last - 1;
      } else {
        slots[last - 1] := slots[last - 1].(index := idx);
      }
      assert slots[..last] == Rest(q);
    }
  }

  // --------------------------------------------------------------- the system

  /** Where a worker stands in MRworker/MRdequeue. */
  datatype Worker =
    | Idle                     // before MT_sema_down(&mrqsema)
    | Woken                    // past the semaphore, before the locked section
    | Holding(task: Task)      // MRdequeue returned, task->cmd not yet run
    | Posting(call: nat)       // task->cmd has run, task->sema not yet raised

  /** Where a caller stands in MRschedule. */
  datatype Pc = Submitting | Raising(left: nat) | Waiting | Returned

  /** A call for `n` tasks; `sema` is its own semaphore, `got` the downs it has done. */
  datatype Call = Call(n: nat, pc: Pc, sema: nat, got: nat) {
    predicate Submitted() { !pc.Submitting? }
  }

  /** `log` records the executed tasks in the order they ran. */
  datatype State = State(queue: seq<Entry>, sema: nat, workers: seq<Worker>, calls: seq<Call>, log: seq<Task>)

  datatype Action =
    | Schedule(n: nat)   // a new thread enters MRschedule with n tasks
    | Submit(c: nat)     // locked section of MRenqueue
    | Raise(c: nat)      // one MT_sema_up(&mrqsema)
    | Await(c: nat)      // one MT_sema_down(&sema)
    | Return(c: nat)     // MRschedule returns
    | Take(w: nat)       // MT_sema_down(&mrqsema)
    | Dequeue(w: nat)    // locked section of MRdequeue
    | Execute(w: nat)    // task->cmd(task)
    | Post(w: nat)       // MT_sema_up(task->sema)

  function TasksOf(c: nat, n: nat): (ts: seq<Task>)
    ensures |ts| == n && forall i :: 0 <= i < n ==> ts[i] == Task(c, i)
  {
    seq(n, i requires 0 <= i < n => Task(c, i))
  }

  predicate Enabled(s: State, a: Action) {
    match a
    case Schedule(n) => n > 0
    case Submit(c) => c < |s.calls| && s.calls[c].pc.Submitting?
    case Raise(c) => c < |s.calls| && s.calls[c].pc.Raising?
    case Await(c) => c < |s.calls| && s.calls[c].pc.Waiting? && s.calls[c].got < s.calls[c].n && s.calls[c].sema > 0
    case Return(c) => c < |s.calls| && s.calls[c].pc.Waiting? && s.calls[c].got == s.calls[c].n
    case Take(w) => w < |s.workers| && s.workers[w].Idle? && s.sema > 0
    case Dequeue(w) => w < |s.workers| && s.workers[w].Woken?
    case Execute(w) => w < |s.workers| && s.workers[w].Holding?
    case Post(w) => w < |s.workers| && s.workers[w].Posting?
  }

  /** A call whose semaphore exists: it was made, and has not returned. */
  predicate Live(s: State, c: nat) { c < |s.calls| && !s.calls[c].pc.Returned? }

  /**
   MRdequeue asserts that the queue is not empty. The semaphore that a worker posts to is on the
   stack of MRschedule, and destroyed when that returns.
   */
  predicate Safe(s: State, a: Action) {
    match a
    case Dequeue(w) => s.queue != [] && s.queue[|s.queue| - 1].Valid()
    case Post(w) => w < |s.workers| && s.workers[w].Posting? ==> Live(s, s.workers[w].call)
    case _ => true
  }

  function Step(s: State, a: Action): State
    requires Enabled(s, a) && Safe(s, a)
  {
    match a
    case Schedule(n) => s.(calls := s.calls + [Call(n, Submitting, 0, 0)])
    case Submit(c) =>
      s.(queue := s.queue + [Entry(TasksOf(c, s.calls[c].n), 0)],
         calls := s.calls[c := s.calls[c].(pc := Raising(s.calls[c].n))])
    case Raise(c) =>
      var left := s.calls[c].pc.left;
      if left == 0 then s.(calls := s.calls[c := s.calls[c].(pc := Waiting)])
      else s.(sema := s.sema + 1, calls := s.calls[c := s.calls[c].(pc := Raising(left - 1))])
    case Await(c) => s.(calls := s.calls[c := s.calls[c].(sema := s.calls[c].sema - 1, got := s.calls[c].got + 1)])
    case Return(c) => s.(calls := s.calls[c := s.calls[c].(pc := Returned)])
    case Take(w) => s.(sema := s.sema - 1, workers := s.workers[w := Woken])
    case Dequeue(w) => s.(queue := Rest(s.queue), workers := s.workers[w := Holding(Next(s.queue))])
    case Execute(w) => s.(log := s.log + [s.workers[w].task],
      workers := s.workers[w := Posting(s.workers[w].task.call)])
    case Post(w) =>
      var c := s.workers[w].call;
      s.(calls := s.calls[c := s.calls[c].(sema := s.calls[c].sema + 1)], workers := s.workers[w := Idle])
  }

  /** The queue has been created; workers wait and nobody has called MRschedule. */
  predicate Init(s: State) {
    s.queue == [] && s.sema == 0 && s.calls == [] && s.log == [] && forall w :: 0 <= w < |s.workers| ==>
      s.workers[w].Idle?
  }

  // ------------------------------------------------------------ the invariant

  /** Semaphore ups the callers still owe to the queue. */
  ghost function Owed(calls: seq<Call>): nat {
    if calls == [] then 0
    else Owed(calls[..|calls| - 1]) + if calls[|calls| - 1].pc.Raising? then calls[|calls| - 1].pc.left else 0
  }

  /** How many tasks of call `c` have run. */
  ghost function Ran(log: seq<Task>, c: nat): nat {
    if log == [] then 0 else Ran(log[..|log| - 1], c) + if log[|log| - 1].call == c then 1 else 0
  }

  ghost predicate Known(s: State, t: Task) {
    t.call < |s.calls| && s.calls[t.call].Submitted() && t.idx < s.calls[t.call].n
  }

  /** How often task `t` is in the system: queued, held by a worker, or run. */
  ghost function Copies(s: State, t: Task): nat
    requires ValidQueue(s.queue)
  {
    Pending(s.queue)[t] + multiset(s.workers)[Holding(t)] + multiset(s.log)[t]
  }

  /** Every submitted task is in exactly one place, and nothing else is in the system. */
  ghost predicate Conserved(s: State)
    requires ValidQueue(s.queue)
  {
    forall t :: Copies(s, t) == if Known(s, t) then 1 else 0
  }

  /** Every completed task was posted to its own call, or is about to be. */
  ghost predicate Accounted(s: State) {
    forall c :: 0 <= c < |s.calls| ==>
      Ran(s.log, c) == multiset(s.workers)[Posting(c)] + s.calls[c].sema + s.calls[c].got
  }

  ghost predicate Inv(s: State) {
    && ValidQueue(s.queue)
    && Conserved(s)
    && s.sema + multiset(s.workers)[Woken] + Owed(s.calls) == |Pending(s.queue)|
    && Accounted(s)
    && (forall w :: 0 <= w < |s.workers| && s.workers[w].Posting? ==> s.workers[w].call < |s.calls|)
    && (forall c :: 0 <= c < |s.calls| ==> s.calls[c].got <= s.calls[c].n && s.calls[c].n > 0)
    && (forall c :: 0 <= c < |s.calls| && s.calls[c].pc.Returned? ==> s.calls[c].got == s.calls[c].n)
  }

  lemma OwedUpdate(calls: seq<Call>, c: nat, k: Call)
    requires c < |calls|
    ensures Owed(calls[c := k]) + (if calls[c].pc.Raising? then calls[c].pc.left else 0)
         == Owed(calls) + (if k.pc.Raising? then k.pc.left else 0)
  {
    if c == |calls| - 1 {
      assert calls[c := k][..c] == calls[..c];
    } else {
      assert calls[c := k][..|calls| - 1] == calls[..|calls| - 1][c := k];
      OwedUpdate(calls[..|calls| - 1], c, k);
    }
  }

  lemma OwedAppend(calls: seq<Call>, k: Call)
    ensures Owed(calls + [k]) == Owed(calls) + if k.pc.Raising? then k.pc.left else 0
  {
    assert (calls + [k])[..|calls|] == calls;
  }

  lemma RanAppend(log: seq<Task>, t: Task, c: nat)
    ensures Ran(log + [t], c) == Ran(log, c) + if t.call == c then 1 else 0
  {
    assert (log + [t])[..|log|] == log;
  }

  lemma {:induction false} RanBounded(log: seq<Task>, c: nat)
    ensures Ran(log, c) > 0 ==> exists t :: t in log && t.call == c
  {
    if log != [] {
      RanBounded(log[..|log| - 1], c);
      assert log[|log| - 1] in log;
    }
  }

  lemma InitInv(s: State)
    requires Init(s)
    ensures Inv(s)
  {
    forall w: Worker ensures w in multiset(s.workers) ==> w == Idle {
      assert w in multiset(s.workers) <==> w in s.workers;
    }
    assert forall t :: Copies(s, t) == 0;
  }

  /** A worker that got past the semaphore always finds a task. */
  lemma WokenFindsTask(s: State, w: nat)
    requires Inv(s) && w < |s.workers| && s.workers[w].Woken?
    ensures s.queue != []
  {
    assert Woken in multiset(s.workers);
    PendingEmpty(s.queue);
  }

  lemma EnabledIsSafe(s: State, a: Action)
    requires Inv(s) && Enabled(s, a)
    ensures Safe(s, a)
  {
    if a.Dequeue? {
      WokenFindsTask(s, a.w);
    } else if a.Post? {
      PostsToLive(s, a.w);
    }
  }

  /** No worker is left with a task of a call that has returned, or with its completion to post. */
  lemma PostsToLive(s: State, w: nat)
    requires Inv(s) && w < |s.workers|
    ensures s.workers[w].Posting? ==> Live(s, s.workers[w].call)
    ensures s.workers[w].Holding? ==> Live(s, s.workers[w].task.call)
  {
    hide Pending, Owed, Ran;
    assert s.workers[w] in multiset(s.workers);
    if s.workers[w].Posting? {
      var c := s.workers[w].call;
      RanAtMost(s, c);
      assert Ran(s.log, c) >= 1 + s.calls[c].got;
    } else if s.workers[w].Holding? {
      var t := s.workers[w].task;
      assert Copies(s, t) == if Known(s, t) then 1 else 0;
      if s.calls[t.call].pc.Returned? {
        RanAll(s, t.call);
      }
    }
  }

  lemma SubmitInv(s: State, c: nat)
    requires Inv(s) && Enabled(s, Submit(c))
    ensures Inv(Step(s, Submit(c)))
  {
    hide Pending, Owed, Ran;
    var s' := Step(s, Submit(c));
    var ts := TasksOf(c, s.calls[c].n);
    PendingPush(s.queue, ts);
    OwedUpdate(s.calls, c, s'.calls[c]);
    forall t ensures Copies(s', t) == if Known(s', t) then 1 else 0 {
      assert Copies(s, t) == if Known(s, t) then 1 else 0;
      TasksOnce(c, s.calls[c].n, t);
    }
  }

  lemma TasksOnce(c: nat, n: nat, t: Task)
    ensures multiset(TasksOf(c, n))[t] == if t.call == c && t.idx < n then 1 else 0
  {
    if n > 0 {
      assert TasksOf(c, n) == TasksOf(c, n - 1) + [Task(c, n - 1)];
      TasksOnce(c, n - 1, t);
    }
  }

  /** Copies depend only on the queue, the log and the tasks the workers hold. */
  lemma SameCopies(s: State, s': State)
    requires ValidQueue(s.queue) && Conserved(s)
    requires s'.queue == s.queue && s'.log == s.log
    requires forall t :: multiset(s'.workers)[Holding(t)] == multiset(s.workers)[Holding(t)]
    requires forall t :: Known(s', t) == Known(s, t)
    ensures Conserved(s')
  {
    forall t ensures Copies(s', t) == if Known(s', t) then 1 else 0 {
      assert Copies(s, t) == if Known(s, t) then 1 else 0;
    }
  }

  lemma RaiseInv(s: State, c: nat)
    requires Inv(s) && Enabled(s, Raise(c))
    ensures Inv(Step(s, Raise(c)))
  {
    hide Pending, Owed, Ran, Conserved;
    var s' := Step(s, Raise(c));
    OwedUpdate(s.calls, c, s'.calls[c]);
    SameCopies(s, s');
  }

  lemma AwaitInv(s: State, c: nat)
    requires Inv(s) && Enabled(s, Await(c))
    ensures Inv(Step(s, Await(c)))
  {
    hide Pending, Owed, Ran, Conserved;
    var s' := Step(s, Await(c));
    OwedUpdate(s.calls, c, s'.calls[c]);
    SameCopies(s, s');
  }

  lemma ReturnInv(s: State, c: nat)
    requires Inv(s) && Enabled(s, Return(c))
    ensures Inv(Step(s, Return(c)))
  {
    hide Pending, Owed, Ran, Conserved;
    var s' := Step(s, Return(c));
    OwedUpdate(s.calls, c, s'.calls[c]);
    SameCopies(s, s');
  }

  lemma ScheduleInv(s: State, n: nat)
    requires Inv(s) && n > 0
    ensures Inv(Step(s, Schedule(n)))
  {
    hide Pending, Owed, Ran;
    var s' := Step(s, Schedule(n));
    OwedAppend(s.calls, Call(n, Submitting, 0, 0));
    forall t ensures Copies(s', t) == if Known(s', t) then 1 else 0 {
      assert Copies(s, t) == if Known(s, t) then 1 else 0;
    }
    var c := |s.calls|;
    forall t | t in s.log ensures t.call < c {
      assert t in multiset(s.log);
      assert Copies(s, t) == if Known(s, t) then 1 else 0;
    }
    RanBounded(s.log, c);
    assert multiset(s.workers)[Posting(c)] == 0 by {
      assert Posting(c) in multiset(s.workers) <==> Posting(c) in s.workers;
    }
  }

  lemma DequeueInv(s: State, w: nat)
    requires Inv(s) && Enabled(s, Dequeue(w)) && Safe(s, Dequeue(w))
    ensures Inv(Step(s, Dequeue(w)))
  {
    hide Pending, Owed, Ran;
    var s' := Step(s, Dequeue(w));
    PendingPop(s.queue);
    assert multiset(s'.workers) == multiset(s.workers) - multiset{Woken} + multiset{Holding(Next(s.queue))};
    forall t ensures Copies(s', t) == if Known(s', t) then 1 else 0 {
      assert Copies(s, t) == if Known(s, t) then 1 else 0;
    }
  }

  lemma ExecuteCopies(s: State, w: nat)
    requires Inv(s) && Enabled(s, Execute(w))
    ensures Conserved(Step(s, Execute(w)))
    ensures Known(s, s.workers[w].task)
  {
    hide Pending, Owed, Ran, Accounted;
    var t0 := s.workers[w].task;
    var s' := Step(s, Execute(w));
    MoveWorker(s.workers, w, Posting(t0.call));
    assert Copies(s, t0) == if Known(s, t0) then 1 else 0;
    forall t ensures Copies(s', t) == if Known(s', t) then 1 else 0 {
      assert Copies(s, t) == if Known(s, t) then 1 else 0;
    }
  }

  lemma ExecuteInv(s: State, w: nat)
    requires Inv(s) && Enabled(s, Execute(w))
    ensures Inv(Step(s, Execute(w)))
  {
    hide Pending, Owed, Ran, Conserved;
    ExecuteCopies(s, w);
    var t0 := s.workers[w].task;
    var s' := Step(s, Execute(w));
    MoveWorker(s.workers, w, Posting(t0.call));
    forall c | 0 <= c < |s.calls|
      ensures Ran(s'.log, c) == multiset(s'.workers)[Posting(c)] + s'.calls[c].sema + s'.calls[c].got
    {
      RanAppend(s.log, t0, c);
    }
  }

  lemma MoveWorker(ws: seq<Worker>, i: nat, w: Worker)
    requires i < |ws|
    ensures ws[i] in multiset(ws)
    ensures forall v ::
      multiset(ws[i := w])[v] + (if v == ws[i] then 1 else 0) == multiset(ws)[v] + (if v == w then 1 else 0)
  {
    assert multiset(ws[i := w]) == multiset(ws) - multiset{ws[i]} + multiset{w};
  }

  lemma TakeInv(s: State, w: nat)
    requires Inv(s) && Enabled(s, Take(w))
    ensures Inv(Step(s, Take(w)))
  {
    hide Pending, Owed, Ran, Conserved;
    var s' := Step(s, Take(w));
    MoveWorker(s.workers, w, Woken);
    SameCopies(s, s');
  }

  lemma PostInv(s: State, w: nat)
    requires Inv(s) && Enabled(s, Post(w)) && Safe(s, Post(w))
    ensures Inv(Step(s, Post(w)))
  {
    hide Pending, Owed, Ran, Conserved;
    var s' := Step(s, Post(w));
    MoveWorker(s.workers, w, Idle);
    OwedUpdate(s.calls, s.workers[w].call, s'.calls[s.workers[w].call]);
    SameCopies(s, s');
  }

  /** Every action of every thread keeps the invariant. */
  lemma StepInv(s: State, a: Action)
    requires Inv(s) && Enabled(s, a)
    ensures Safe(s, a) && Inv(Step(s, a))
  {
    EnabledIsSafe(s, a);
    match a
    case Schedule(n) => ScheduleInv(s, n);
    case Submit(c) => SubmitInv(s, c);
    case Raise(c) => RaiseInv(s, c);
    case Await(c) => AwaitInv(s, c);
    case Return(c) => ReturnInv(s, c);
    case Take(w) => TakeInv(s, w);
    case Dequeue(w) => DequeueInv(s, w);
    case Execute(w) => ExecuteInv(s, w);
    case Post(w) => PostInv(s, w);
  }

  // ------------------------------------------------------------- whole runs

  /** `s` is reached from some start by performing `trace`. */
  ghost predicate Reaches(s0: State, trace: seq<Action>, s: State)
    decreases |trace|
  {
    if trace == [] then s == s0
    else Enabled(s0, trace[0]) && Safe(s0, trace[0]) && Reaches(Step(s0, trace[0]), trace[1..], s)
  }

  lemma {:induction false} RunInv(s0: State, trace: seq<Action>, s: State)
    requires Inv(s0) && Reaches(s0, trace, s)
    ensures Inv(s)
    decreases |trace|
  {
    if trace != [] {
      StepInv(s0, trace[0]);
      RunInv(Step(s0, trace[0]), trace[1..], s);
    }
  }

  /** The indices of the tasks of call `c` that have run. */
  ghost function Indices(log: seq<Task>, c: nat): set<nat> {
    set t | t in log && t.call == c :: t.idx
  }

  ghost function UpTo(n: nat): (s: set<nat>)
    ensures |s| == n && forall i: nat :: i in s <==> i < n
  {
    if n == 0 then {} else UpTo(n - 1) + {n - 1}
  }

  lemma RanIsCardinality(log: seq<Task>, c: nat)
    requires forall t :: multiset(log)[t] <= 1
    ensures Ran(log, c) == |Indices(log, c)|
  {
    if log != [] {
      var n := |log| - 1;
      var front, t0 := log[..n], log[n];
      assert log == front + [t0];
      assert multiset(log) == multiset(front) + multiset{t0};
      assert multiset(log)[t0] <= 1;
      assert t0 !in front;
      forall t ensures multiset(front)[t] <= 1 {
        assert multiset(log)[t] <= 1;
      }
      RanIsCardinality(front, c);
      if t0.call == c {
        assert Indices(log, c) == Indices(front, c) + {t0.idx};
        assert t0.idx !in Indices(front, c);
      } else {
        assert Indices(log, c) == Indices(front, c);
      }
    }
  }

  lemma SubsetSameSize(a: set<nat>, b: set<nat>)
    requires a <= b && |a| >= |b|
    ensures a == b
  {
    if exists x :: x in b && x !in a {
      var x :| x in b && x !in a;
      SubsetSize(a, b - {x});
    }
  }

  lemma SubsetSize(a: set<nat>, b: set<nat>)
    requires a <= b
    ensures |a| <= |b|
  {
    if a != {} {
      var x :| x in a;
      SubsetSize(a - {x}, b - {x});
    }
  }

  lemma RanAtMost(s: State, c: nat)
    requires Inv(s) && c < |s.calls|
    ensures Ran(s.log, c) <= s.calls[c].n
  {
    hide Pending, Owed, Ran, Accounted;
    var n := s.calls[c].n;
    forall t ensures multiset(s.log)[t] <= 1 && (t in s.log && t.call == c ==> t.idx < n) {
      assert Copies(s, t) == if Known(s, t) then 1 else 0;
      assert t in s.log ==> t in multiset(s.log);
    }
    RanIsCardinality(s.log, c);
    SubsetSize(Indices(s.log, c), UpTo(n));
  }

  /** The executed tasks of a call, counted, against its `n` tasks. */
  lemma RanAll(s: State, c: nat)
    requires Inv(s) && c < |s.calls|
    ensures Ran(s.log, c) >= s.calls[c].n ==> forall i: nat :: i < s.calls[c].n ==> Task(c, i) in s.log
    ensures (forall i: nat :: i < s.calls[c].n ==> Task(c, i) in s.log) ==> Ran(s.log, c) >= s.calls[c].n
  {
    var n := s.calls[c].n;
    forall t ensures multiset(s.log)[t] <= 1 {
      assert Copies(s, t) == if Known(s, t) then 1 else 0;
    }
    RanIsCardinality(s.log, c);
    var got := Indices(s.log, c);
    assert got <= UpTo(n) by {
      forall t | t in s.log && t.call == c ensures t.idx < n {
        assert t in multiset(s.log);
        assert Copies(s, t) == if Known(s, t) then 1 else 0;
      }
    }
    if Ran(s.log, c) >= n {
      SubsetSameSize(got, UpTo(n));
      forall i: nat | i < n ensures Task(c, i) in s.log {
        assert i in got;
        var t :| t in s.log && t.call == c && t.idx == i;
      }
    }
    if forall i: nat :: i < n ==> Task(c, i) in s.log {
      forall i: nat | i in UpTo(n) ensures i in got {
        assert Task(c, i) in s.log && Task(c, i).call == c && Task(c, i).idx == i;
      }
      SubsetSize(UpTo(n), got);
    }
  }

  /**
   Under every interleaving: no task runs twice, none runs that was not submitted,
   a call that returned has had all of its own tasks run, and no worker still refers to it.
   */
  lemma ExactlyOnce(s0: State, trace: seq<Action>, s: State)
    requires Init(s0) && Reaches(s0, trace, s)
    ensures forall t :: multiset(s.log)[t] <= 1
    ensures forall t :: t in s.log ==> Known(s, t)
    ensures forall c, i: nat :: 0 <= c < |s.calls| && s.calls[c].pc.Returned? && i < s.calls[c].n ==>
      multiset(s.log)[Task(c, i)] == 1
    ensures forall w :: 0 <= w < |s.workers| && s.workers[w].Woken? ==> s.queue != []
    ensures forall w :: 0 <= w < |s.workers| && s.workers[w].Posting? ==> Live(s, s.workers[w].call)
    ensures forall w :: 0 <= w < |s.workers| && s.workers[w].Holding? ==> Live(s, s.workers[w].task.call)
  {
    InitInv(s0);
    RunInv(s0, trace, s);
    forall t
      ensures multiset(s.log)[t] <= 1
      ensures t in s.log ==> Known(s, t)
    {
      assert Copies(s, t) == if Known(s, t) then 1 else 0;
      assert t in s.log ==> t in multiset(s.log);
    }
    forall c, i: nat | 0 <= c < |s.calls| && s.calls[c].pc.Returned? && i < s.calls[c].n
      ensures multiset(s.log)[Task(c, i)] == 1
    {
      ReturnedRan(s, c);
    }
    forall w | 0 <= w < |s.workers| && s.workers[w].Woken? ensures s.queue != [] {
      WokenFindsTask(s, w);
    }
    forall w | 0 <= w < |s.workers|
      ensures s.workers[w].Posting? ==> Live(s, s.workers[w].call)
      ensures s.workers[w].Holding? ==> Live(s, s.workers[w].task.call)
    {
      PostsToLive(s, w);
    }
  }

  // --------------------------------------------- progress and termination

  ghost function CallRank(k: Call): nat {
    k.sema + match k.pc
             case Submitting => 6 * k.n + 3
             case Raising(left) => 3 * left + 2
             case Waiting => 1
             case Returned => 0
  }

  ghost function WorkerRank(w: Worker): nat {
    match w
    case Idle => 0
    case Woken => 1
    case Holding(_) => 3
    case Posting(_) => 2
  }

  ghost function CallsRank(calls: seq<Call>): nat {
    if calls == [] then 0 else CallsRank(calls[..|calls| - 1]) + CallRank(calls[|calls| - 1])
  }

  ghost function WorkersRank(ws: seq<Worker>): nat {
    if ws == [] then 0 else WorkersRank(ws[..|ws| - 1]) + WorkerRank(ws[|ws| - 1])
  }

  /** A bound on the number of steps the system can take without new calls. */
  ghost function Rank(s: State): nat
    requires ValidQueue(s.queue)
  {
    CallsRank(s.calls) + WorkersRank(s.workers) + 2 * s.sema + 3 * |Pending(s.queue)|
  }

  lemma CallsRankUpdate(calls: seq<Call>, c: nat, k: Call)
    requires c < |calls|
    ensures CallsRank(calls[c := k]) + CallRank(calls[c]) == CallsRank(calls) + CallRank(k)
  {
    if c == |calls| - 1 {
      assert calls[c := k][..c] == calls[..c];
    } else {
      assert calls[c := k][..|calls| - 1] == calls[..|calls| - 1][c := k];
      CallsRankUpdate(calls[..|calls| - 1], c, k);
    }
  }

  lemma WorkersRankUpdate(ws: seq<Worker>, i: nat, w: Worker)
    requires i < |ws|
    ensures WorkersRank(ws[i := w]) + WorkerRank(ws[i]) == WorkersRank(ws) + WorkerRank(w)
  {
    if i == |ws| - 1 {
      assert ws[i := w][..i] == ws[..i];
    } else {
      assert ws[i := w][..|ws| - 1] == ws[..|ws| - 1][i := w];
      WorkersRankUpdate(ws[..|ws| - 1], i, w);
    }
  }

  lemma CallerRank(s: State, a: Action)
    requires Inv(s) && Enabled(s, a) && (a.Raise? || a.Await? || a.Return?)
    ensures ValidQueue(Step(s, a).queue) && Rank(Step(s, a)) < Rank(s)
  {
    hide Pending, CallsRank, WorkersRank, Conserved, Accounted, Owed;
    CallsRankUpdate(s.calls, a.c, Step(s, a).calls[a.c]);
  }

  lemma SubmitRank(s: State, c: nat)
    requires Inv(s) && Enabled(s, Submit(c))
    ensures ValidQueue(Step(s, Submit(c)).queue) && Rank(Step(s, Submit(c))) < Rank(s)
  {
    hide Pending, CallsRank, WorkersRank, Conserved, Accounted, Owed;
    CallsRankUpdate(s.calls, c, Step(s, Submit(c)).calls[c]);
    PendingPush(s.queue, TasksOf(c, s.calls[c].n));
  }

  lemma WorkerStepRank(s: State, a: Action)
    requires Inv(s) && Enabled(s, a) && Safe(s, a) && (a.Take? || a.Dequeue? || a.Execute? || a.Post?)
    ensures ValidQueue(Step(s, a).queue) && Rank(Step(s, a)) < Rank(s)
  {
    hide Pending, CallsRank, WorkersRank, Conserved, Accounted, Owed;
    var s' := Step(s, a);
    WorkersRankUpdate(s.workers, a.w, s'.workers[a.w]);
    if a.Dequeue? {
      PendingPop(s.queue);
    } else if a.Post? {
      CallsRankUpdate(s.calls, s.workers[a.w].call, s'.calls[s.workers[a.w].call]);
    }
  }

  /** Without new calls the system cannot run forever. */
  lemma RankDecreases(s: State, a: Action)
    requires Inv(s) && Enabled(s, a) && !a.Schedule?
    ensures Safe(s, a) && ValidQueue(Step(s, a).queue) && Rank(Step(s, a)) < Rank(s)
  {
    EnabledIsSafe(s, a);
    if a.Submit? {
      SubmitRank(s, a.c);
    } else if a.Raise? || a.Await? || a.Return? {
      CallerRank(s, a);
    } else {
      WorkerStepRank(s, a);
    }
  }

  /** No deadlock: with a worker alive, an unreturned call means that some thread can move. */
  lemma Progress(s: State, c: nat)
    requires Inv(s) && s.workers != [] && c < |s.calls| && !s.calls[c].pc.Returned?
    ensures exists a: Action :: !a.Schedule? && Enabled(s, a)
  {
    if w: nat :| w < |s.workers| && !s.workers[w].Idle? {
      match s.workers[w]
      case Woken => assert Enabled(s, Dequeue(w));
      case Holding(_) => assert Enabled(s, Execute(w));
      case Posting(_) => assert Enabled(s, Post(w));
    } else if k: nat :| k < |s.calls| && s.calls[k].pc.Raising? {
      assert Enabled(s, Raise(k));
    } else if s.sema > 0 {
      assert Enabled(s, Take(0));
    } else if s.calls[c].pc.Submitting? {
      assert Enabled(s, Submit(c));
    } else {
      OwedNothing(s.calls);
      forall w: Worker ensures w in multiset(s.workers) ==> w == Idle {
        assert w in multiset(s.workers) <==> w in s.workers;
      }
      forall i: nat | i < s.calls[c].n ensures Task(c, i) in s.log {
        assert Copies(s, Task(c, i)) == 1;
        assert Task(c, i) in multiset(s.log);
      }
      RanAll(s, c);
      assert Enabled(s, if s.calls[c].got == s.calls[c].n then Return(c) else Await(c));
    }
  }

  lemma OwedNothing(calls: seq<Call>)
    requires forall k :: 0 <= k < |calls| ==> !calls[k].pc.Raising?
    ensures Owed(calls) == 0
  {
  }

  ghost predicate AllReturned(s: State) {
    forall c :: 0 <= c < |s.calls| ==> s.calls[c].pc.Returned?
  }

  lemma StepKeepsWorkers(s: State, a: Action)
    requires Enabled(s, a) && Safe(s, a)
    ensures |Step(s, a).workers| == |s.workers|
  {
  }

  lemma {:induction false} RunLength(s0: State, trace: seq<Action>, s: State)
    requires Inv(s0) && Reaches(s0, trace, s)
    requires forall i :: 0 <= i < |trace| ==> !trace[i].Schedule?
    ensures Inv(s) && |s.workers| == |s0.workers|
    ensures |trace| + Rank(s) <= Rank(s0)
    decreases |trace|
  {
    if trace != [] {
      StepInv(s0, trace[0]);
      RankDecreases(s0, trace[0]);
      StepKeepsWorkers(s0, trace[0]);
      RunLength(Step(s0, trace[0]), trace[1..], s);
    }
  }

  /**
   Once no new calls arrive, every run is finite, however it is interleaved, and it
   can only stop when every caller has returned from MRschedule.
   */
  lemma EveryoneReturns(s0: State, trace: seq<Action>, s: State)
    requires Inv(s0) && s0.workers != [] && Reaches(s0, trace, s)
    requires forall i :: 0 <= i < |trace| ==> !trace[i].Schedule?
    ensures |trace| <= Rank(s0)
    ensures (forall a: Action :: a.Schedule? || !Enabled(s, a)) ==> AllReturned(s)
  {
    RunLength(s0, trace, s);
    if c: nat :| c < |s.calls| && !s.calls[c].pc.Returned? {
      Progress(s, c);
    }
  }

  lemma {:induction false} CallsKept(s0: State, trace: seq<Action>, s: State, c: nat)
    requires Reaches(s0, trace, s) && c < |s0.calls|
    ensures c < |s.calls| && s.calls[c].n == s0.calls[c].n
    decreases |trace|
  {
    if trace != [] {
      CallsKept(Step(s0, trace[0]), trace[1..], s, c);
    }
  }

  /** Whoever calls MRschedule with n tasks has them all run, once each, before it returns; and it does return. */
  lemma CallCompletes(s: State, n: nat, trace: seq<Action>, s': State)
    requires Inv(s) && s.workers != [] && Enabled(s, Schedule(n)) && Reaches(Step(s, Schedule(n)), trace, s')
    requires forall i :: 0 <= i < |trace| ==> !trace[i].Schedule?
    requires forall a: Action :: a.Schedule? || !Enabled(s', a)
    ensures
      var c := |s.calls|;
      c < |s'.calls| && s'.calls[c].n == n && s'.calls[c].pc.Returned?
      && forall i: nat :: i < n ==> multiset(s'.log)[Task(c, i)] == 1
  {
    hide Inv, Enabled;
    var c, s1 := |s.calls|, Step(s, Schedule(n));
    StepInv(s, Schedule(n));
    EveryoneReturns(s1, trace, s');
    CallsKept(s1, trace, s', c);
    RunInv(s1, trace, s');
    ReturnedRan(s', c);
  }

  lemma ReturnedRan(s: State, c: nat)
    requires Inv(s) && c < |s.calls| && s.calls[c].pc.Returned?
    ensures forall i: nat :: i < s.calls[c].n ==> multiset(s.log)[Task(c, i)] == 1
  {
    RanAll(s, c);
    forall i: nat | i < s.calls[c].n ensures multiset(s.log)[Task(c, i)] == 1 {
      assert Task(c, i) in multiset(s.log);
      assert Copies(s, Task(c, i)) == 1;
    }
  }
}
