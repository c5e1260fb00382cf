/**
 The task queue on the heap and the interleaved model: what a critical section does to the heap is what its
 steps do to the state.
 */
module ThreadPoolHeap {
  import opened Options
  import opened Sequences
  import opened ThreadPool
  import Run = ThreadPoolRun

  /** The pointer `p` is the task with the number `k` among all tasks ever allocated. */
  predicate Names(all: seq<Task>, p: Task?, k: Option<nat>) {
    match k
    case None => p == null
    case Some(n) => n < |all| && p == all[n]
  }

  predicate Numbers(all: seq<Task>, tasks: seq<Task>, queue: seq<nat>) {
    |tasks| == |queue| && forall i :: 0 <= i < |queue| ==> queue[i] < |all| && tasks[i] == all[queue[i]]
  }

  /** The heap holds the memory of the state: the head, the tail, the links of the allocated tasks and the queue. */
  ghost predicate Shows(q: TaskQueue, all: seq<Task>, s: Run.State)
    reads q, all
  {
    && Injective(all) && Numbers(all, q.tasks, s.queue)
    && Names(all, q.head, s.head)
    && (match s.tail
        case HeadSlot => q.tail == HeadSlot
        case LinkOf(k) => k < |all| && q.tail == LinkOf(all[k]))
    && forall k :: k in s.next ==> k < |all| && Names(all, all[k].next, s.next[k])
  }

  lemma OutsideQueue(all: seq<Task>, tasks: seq<Task>, queue: seq<nat>, k: nat)
    requires Injective(all) && Numbers(all, tasks, queue) && k < |all|
    ensures all[k] in tasks <==> k in queue
  {
    if all[k] in tasks {
      var i :| 0 <= i < |tasks| && tasks[i] == all[k];
      assert queue[i] == k;
    }
    if k in queue {
      var i :| 0 <= i < |queue| && queue[i] == k;
      assert tasks[i] == all[k];
    }
  }

  /** A well-linked queue on the heap shows a state in which the links lead through the same tasks. */
  lemma ShownQueue(q: TaskQueue, all: seq<Task>, s: Run.State)
    requires q.Valid() && Injective(all) && Numbers(all, q.tasks, s.queue)
    requires Run.Chain(s.head, s.next, s.queue) && s.tail == Run.TailOf(s.queue)
    requires forall k :: k in s.next && k !in s.queue ==> k < |all| && Names(all, all[k].next, s.next[k])
    ensures Shows(q, all, s)
  {
    forall k | k in s.next && k in s.queue ensures k < |all| && Names(all, all[k].next, s.next[k]) {
      var i :| 0 <= i < |s.queue| && s.queue[i] == k;
      assert q.tasks[i] == all[k];
    }
  }

  /** The empty queue shows the state in which no thread has taken a step. */
  method Begin(threads: nat) returns (q: TaskQueue)
    ensures fresh(q) && q.Valid() && Shows(q, [], Run.Start(threads))
  {
    q := new TaskQueue.Create();
  }

  /** So many steps of one thread. */
  ghost function Steps(s: Run.State, t: nat, c: Run.Choice, n: nat): (s': Run.State)
    requires Run.Inv(s) && t < |s.pcs|
    ensures Run.Inv(s') && |s'.pcs| == |s.pcs|
    decreases n
  {
    if n == 0 then s
    else
      Run.InvSafe(s, t);
      Run.Kept(s, t, c);
      Steps(Run.Next(s, t, c), t, c, n - 1)
  }

  /** With the lock free, the links lead through the queue and the tail is at its end. */
  lemma FreeList(s: Run.State)
    requires Run.Inv(s) && s.holder == None
    ensures Run.Chain(s.head, s.next, s.queue) && s.tail == Run.TailOf(s.queue)
  {
    assert Run.Inside(s) == Run.Idle;
  }

  lemma OneStep(s: Run.State, t: nat, c: Run.Choice, n: nat) returns (s': Run.State)
    requires Run.Inv(s) && t < |s.pcs| && n > 0
    ensures Run.Safe(s, t) && s' == Run.Next(s, t, c) && Run.Inv(s') && |s'.pcs| == |s.pcs|
    ensures Steps(s, t, c, n) == if n == 1 then s' else Steps(s', t, c, n - 1)
  {
    Run.InvSafe(s, t);
    Run.Kept(s, t, c);
    s' := Run.Next(s, t, c);
  }

  /** What the steps inside the lock leave alone. */
  function Fates(s: Run.State): (nat, seq<nat>, seq<nat>) {
    (s.made, s.executed, s.discarded)
  }

  /** A step inside the lock other than the one that links a task and the one that unlinks it. */
  lemma QuietStep(s: Run.State, t: nat, c: Run.Choice)
    requires Run.Safe(s, t) && Run.Critical(s.pcs[t]) && !s.pcs[t].AddLocked? && !s.pcs[t].PopRead?
    ensures var s', pc := Run.Next(s, t, c), s.pcs[t];
      && s'.next == s.next && s'.queue == s.queue && s'.head == s.head && Fates(s') == Fates(s)
      && s'.holder == (if pc.AddMoved? || pc.PopReset? || pc.PopEmpty? then None else s.holder)
      && s'.pcs == s.pcs[t :=
        match pc
        case AddStored(k) => Run.AddMoved(k)
        case PopLocked(role) => if s.head == None then Run.PopEmpty else Run.PopRead(s.head.value, role)
        case PopAdvanced(k, role) => Run.PopReset(k, role)
        case PopReset(k, role) => Run.Holding(k, role)
        case _ => Run.Idle]
  {
  }

  /** The steps that link and unlink a task. */
  lemma LoudStep(s: Run.State, t: nat, c: Run.Choice)
    requires Run.Safe(s, t) && (s.pcs[t].AddLocked? || s.pcs[t].PopRead?)
    ensures Fates(Run.Next(s, t, c)) == Fates(s)
    ensures var s', k := Run.Next(s, t, c), s.pcs[t].k;
      if s.pcs[t].AddLocked? then
        && s'.queue == s.queue + [k] && s'.pcs == s.pcs[t := Run.AddStored(k)]
        && s'.next == if s.tail == Run.HeadSlot then s.next else s.next[s.tail.task := Some(k)]
      else
        && s'.queue == s.queue[1..] && s'.pcs == s.pcs[t := Run.PopAdvanced(k, s.pcs[t].role)]
        && s'.next == s.next
  {
  }

  /** The two steps from the last change of the list to the release of the lock. */
  lemma Leave(s: Run.State, t: nat, c: Run.Choice)
    requires Run.Inv(s) && t < |s.pcs| && (s.pcs[t].AddStored? || s.pcs[t].PopAdvanced?)
    ensures var s', pc := Steps(s, t, c, 2), s.pcs[t];
      && s'.next == s.next && s'.queue == s.queue && s'.holder == None && Fates(s') == Fates(s)
      && s'.pcs == s.pcs[t := if pc.AddStored? then Run.Idle else Run.Holding(pc.k, pc.role)]
      && Run.Chain(s'.head, s'.next, s'.queue) && s'.tail == Run.TailOf(s'.queue)
  {
    hide Run.Inv, Run.TailOf, Run.Chain, Run.Next, Run.Safe, Steps;
    var s1 := OneStep(s, t, c, 2);
    QuietStep(s, t, c);
    var s2 := OneStep(s1, t, c, 1);
    QuietStep(s1, t, c);
    FreeList(s2);
  }

  /** The steps of __add_task inside the lock. */
  lemma AddSteps(s: Run.State, t: nat, c: Run.Choice)
    requires Run.Inv(s) && t < |s.pcs| && s.pcs[t].AddLocked?
    ensures var k, s' := s.pcs[t].k, Steps(s, t, c, 3);
      && k !in s.queue && s'.queue == s.queue + [k] && Run.Chain(s'.head, s'.next, s'.queue) && Fates(s') == Fates(s)
      && s'.tail == Run.TailOf(s'.queue) && s'.pcs == s.pcs[t := Run.Idle] && s'.holder == None
      && forall j :: j in s'.next && j !in s'.queue ==> j in s.next && s'.next[j] == s.next[j]
  {
    hide Run.Inv, Run.TailOf, Run.Chain, Run.Next, Run.Safe, Steps;
    AddedTask(s, t);
    var s1 := OneStep(s, t, c, 3);
    LoudStep(s, t, c);
    Leave(s1, t, c);
  }

  /** The task that is being added is not queued, and the tail is a task in the queue. */
  lemma AddedTask(s: Run.State, t: nat)
    requires Run.Inv(s) && t < |s.pcs| && s.pcs[t].AddLocked?
    ensures s.pcs[t].k !in s.queue && (s.tail.LinkOf? ==> s.tail.task in s.queue && s.tail.task in s.next)
  {
    Run.Apart(s, t);
    assert s.holder == Some(t) && s.tail == Run.TailOf(s.queue);
  }

  /** The critical section of __add_task, from the moment when the lock is taken. */
  method AddAlone(q: TaskQueue, link: Task, ghost all: seq<Task>, ghost s: Run.State, ghost t: nat, ghost c: Run.Choice)
    requires q.Valid() && Shows(q, all, s) && Run.Inv(s) && t < |s.pcs| && s.pcs[t].AddLocked?
    requires s.pcs[t].k < |all| && link == all[s.pcs[t].k]
    modifies q, link`next, q.tasks`next
    ensures var s' := Steps(s, t, c, 3);
      && q.Valid() && Shows(q, all, s') && s'.pcs == s.pcs[t := Run.Idle] && s'.holder == None
  {
    hide Run.Inv, Steps, Run.Chain;
    AddSteps(s, t, c);
    ghost var s' := Steps(s, t, c, 3);
    OutsideQueue(all, q.tasks, s.queue, s.pcs[t].k);
    ghost var was := q.tasks;
    forall k | k in s'.next && k !in s'.queue ensures k < |all| && all[k] !in was + [link] {
      OutsideQueue(all, was, s.queue, k);
    }
    q.AddTask(link);
    assert Numbers(all, q.tasks, s'.queue);
    ShownQueue(q, all, s');
  }

  /** The head is the first of the queue. */
  lemma HeadIsFirst(s: Run.State)
    requires Run.Inv(s)
    ensures s.head == if s.queue == [] then None else Some(s.queue[0])
  {
  }

  /** The steps of __pop_task inside the lock. */
  lemma PopSteps(s: Run.State, t: nat, c: Run.Choice)
    requires Run.Inv(s) && t < |s.pcs| && s.pcs[t].PopLocked?
    ensures var s' := Steps(s, t, c, if s.queue == [] then 2 else 4);
      && s'.queue == (if s.queue == [] then [] else s.queue[1..]) && Run.Chain(s'.head, s'.next, s'.queue)
      && s'.tail == Run.TailOf(s'.queue) && s'.next == s.next && s'.holder == None && Fates(s') == Fates(s)
      && s'.pcs == s.pcs[t := if s.queue == [] then Run.Idle else Run.Holding(s.queue[0], s.pcs[t].role)]
  {
    hide Run.Inv, Run.TailOf, Run.Chain, Run.Next, Run.Safe, Steps;
    HeadIsFirst(s);
    var s1 := OneStep(s, t, c, if s.queue == [] then 2 else 4);
    QuietStep(s, t, c);
    if s.queue == [] {
      var s2 := OneStep(s1, t, c, 1);
      QuietStep(s1, t, c);
      FreeList(s2);
    } else {
      Take(s1, t, c);
    }
  }

  /** The steps of __pop_task that take the first task out. */
  lemma Take(s: Run.State, t: nat, c: Run.Choice)
    requires Run.Inv(s) && t < |s.pcs| && s.pcs[t].PopRead? && s.queue != []
    ensures var s' := Steps(s, t, c, 3);
      && s'.queue == s.queue[1..] && s'.next == s.next && s'.holder == None && Fates(s') == Fates(s)
      && s'.pcs == s.pcs[t := Run.Holding(s.pcs[t].k, s.pcs[t].role)]
      && Run.Chain(s'.head, s'.next, s'.queue) && s'.tail == Run.TailOf(s'.queue)
  {
    hide Run.Inv, Run.TailOf, Run.Chain, Run.Next, Run.Safe, Steps;
    var s1 := OneStep(s, t, c, 3);
    LoudStep(s, t, c);
    Leave(s1, t, c);
  }

  /** The critical section of __pop_task, from the moment when the lock is taken. */
  method PopAlone(q: TaskQueue, ghost all: seq<Task>, ghost s: Run.State, ghost t: nat, ghost c: Run.Choice)
    returns (task: Task?)
    requires q.Valid() && Shows(q, all, s) && Run.Inv(s) && t < |s.pcs| && s.pcs[t].PopLocked?
    modifies q
    ensures Names(all, task, s.head)
    ensures var s' := Steps(s, t, c, if task == null then 2 else 4);
      && q.Valid() && Shows(q, all, s') && s'.holder == None
      && s'.pcs == s.pcs[t := if s.head == None then Run.Idle else Run.Holding(s.head.value, s.pcs[t].role)]
  {
    hide Steps, Run.Inv, Run.Chain, Run.TailOf;
    HeadIsFirst(s);
    PopSteps(s, t, c);
    task := q.PopTask();
    ghost var s' := Steps(s, t, c, if task == null then 2 else 4);
    ShownQueue(q, all, s');
  }

  lemma {:induction false} LastStep(s: Run.State, t: nat, c: Run.Choice, n: nat)
    requires Run.Inv(s) && t < |s.pcs|
    ensures var s' := Steps(s, t, c, n); Run.Safe(s', t) && Steps(s, t, c, n + 1) == Run.Next(s', t, c)
    decreases n
  {
    hide Run.Inv, Run.Next, Run.Safe, Steps;
    var s1 := OneStep(s, t, c, n + 1);
    if n > 0 {
      var s2 := OneStep(s, t, c, n);
      LastStep(s1, t, c, n - 1);
      NoStep(s1, t, c);
    } else {
      NoStep(s, t, c);
    }
  }

  lemma NoStep(s: Run.State, t: nat, c: Run.Choice)
    requires Run.Inv(s) && t < |s.pcs|
    ensures Steps(s, t, c, 0) == s
  {
  }

  /** A whole call of thread_pool_post that nobody disturbs queues one new task. */
  lemma PostWhole(s: Run.State, t: nat)
    requires Run.Inv(s) && t < |s.pcs| && s.pcs[t] == Run.Idle && s.holder == None
    ensures var s' := Steps(s, t, Run.Post, 5);
      && s'.made == s.made + 1 && s'.queue == s.queue + [s.made] && s'.holder == None && s'.pcs == s.pcs
      && s'.executed == s.executed && s'.discarded == s.discarded
  {
    hide Run.Inv, Run.TailOf, Run.Chain, Run.Safe, Steps;
    var s1 := OneStep(s, t, Run.Post, 5);
    var s2 := OneStep(s1, t, Run.Post, 4);
    AddSteps(s2, t, Run.Post);
  }

  /** The step with the task in hand. */
  lemma FinishStep(s: Run.State, t: nat, c: Run.Choice)
    requires Run.Safe(s, t) && s.pcs[t].Holding?
    ensures var s', k := Run.Next(s, t, c), s.pcs[t].k;
      && s'.queue == s.queue && s'.holder == s.holder && s'.pcs == s.pcs[t := Run.Idle]
      && s'.executed == (if s.pcs[t].role == Run.Worker then s.executed + [k] else s.executed)
      && s'.discarded == (if s.pcs[t].role == Run.Destroyer then s.discarded + [k] else s.discarded)
  {
  }

  /** A whole turn of a worker, or of the clean-up, that nobody disturbs: the first task is executed, or discarded. */
  lemma PopWhole(s: Run.State, t: nat, role: Run.Role)
    requires Run.Inv(s) && t < |s.pcs| && s.pcs[t] == Run.Idle && s.holder == None
    ensures var s' := Steps(s, t, Run.Pop(role), if s.queue == [] then 3 else 6);
      && s'.queue == (if s.queue == [] then [] else s.queue[1..]) && s'.holder == None && s'.pcs == s.pcs
      && s'.executed == s.executed + (if s.queue != [] && role == Run.Worker then [s.queue[0]] else [])
      && s'.discarded == s.discarded + (if s.queue != [] && role == Run.Destroyer then [s.queue[0]] else [])
  {
    hide Run.Inv, Run.TailOf, Run.Chain, Run.Safe, Steps;
    var c := Run.Pop(role);
    var s1 := OneStep(s, t, c, if s.queue == [] then 3 else 6);
    assert s1 == s.(pcs := s.pcs[t := Run.PopLocked(role)], holder := Some(t));
    hide Run.Next;
    PopSteps(s1, t, c);
    if s.queue != [] {
      var s5 := Steps(s1, t, c, 4);
      LastStep(s1, t, c, 4);
      FinishStep(s5, t, c);
    }
  }
}
