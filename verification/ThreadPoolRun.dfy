/**
 Posters, workers and the final clean-up of the thread pool, interleaved at every access to the queue.

 A task is the number of its allocation.  Between two steps of one thread any other thread may take any
 number of steps; only the spin lock keeps threads apart.
 */
module ThreadPoolRun {
  import opened Options
  import opened Sequences

  /** What the tail points to: the head pointer of the queue or the link of a task. */
  datatype Slot = HeadSlot | LinkOf(task: nat)

  datatype Role = Worker | Destroyer

  /** Where a thread is in thread_pool_post and __add_task, or in __pop_task and what follows it. */
  datatype PC =
    | Idle
    | Prepared(k: nat) | AddLocked(k: nat) | AddStored(k: nat) | AddMoved(k: nat)
    | PopLocked(role: Role) | PopRead(k: nat, role: Role) | PopAdvanced(k: nat, role: Role)
    | PopReset(k: nat, role: Role) | PopEmpty
    | Holding(k: nat, role: Role)

  /** What an idle thread does next. */
  datatype Choice = Post | Pop(role: Role)

  /**
   The memory: `next` has the links of the tasks that are allocated.  The sequences are the history:
   `linked` and `popped` in the order in which tasks enter and leave the list, `queue` what is between.
   */
  datatype State = State(
    head: Option<nat>, next: map<nat, Option<nat>>, tail: Slot, holder: Option<nat>, pcs: seq<PC>, made: nat,
    queue: seq<nat>, linked: seq<nat>, popped: seq<nat>, executed: seq<nat>, discarded: seq<nat>)

  function Start(threads: nat): State {
    State(None, map[], HeadSlot, None, seq(threads, i => Idle), 0, [], [], [], [], [])
  }

  /** The step touches allocated memory only. */
  predicate Safe(s: State, t: nat) {
    t < |s.pcs| &&
    match s.pcs[t]
    case AddLocked(k) => s.tail.LinkOf? ==> s.tail.task in s.next
    case PopRead(k, _) => k in s.next && s.queue != []
    case Holding(k, _) => k in s.next
    case _ => true
  }

  function Goto(s: State, t: nat, pc: PC): State
    requires t < |s.pcs|
  {
    s.(pcs := s.pcs[t := pc])
  }

  function Locked(s: State, t: nat, pc: PC): State
    requires t < |s.pcs|
  {
    if s.holder == None then Goto(s, t, pc).(holder := Some(t)) else s
  }

  function Next(s: State, t: nat, c: Choice): State
    requires Safe(s, t)
  {
    match s.pcs[t]
    case Idle =>
      (match c
       case Post => Goto(s, t, Prepared(s.made)).(next := s.next[s.made := None], made := s.made + 1)
       case Pop(role) => Locked(s, t, PopLocked(role)))
    case Prepared(k) => Locked(s, t, AddLocked(k))
    case AddLocked(k) =>
      var s' := Goto(s, t, AddStored(k)).(queue := s.queue + [k], linked := s.linked + [k]);
      if s.tail == HeadSlot then s'.(head := Some(k)) else s'.(next := s.next[s.tail.task := Some(k)])
    case AddStored(k) => Goto(s, t, AddMoved(k)).(tail := LinkOf(k))
    case AddMoved(k) => Goto(s, t, Idle).(holder := None)
    case PopLocked(role) => Goto(s, t, if s.head == None then PopEmpty else PopRead(s.head.value, role))
    case PopRead(k, role) =>
      Goto(s, t, PopAdvanced(k, role)).(head := s.next[k], queue := s.queue[1..], popped := s.popped + [k])
    case PopAdvanced(k, role) => Goto(s, t, PopReset(k, role)).(tail := if s.head == None then HeadSlot else s.tail)
    case PopReset(k, role) => Goto(s, t, Holding(k, role)).(holder := None)
    case PopEmpty => Goto(s, t, Idle).(holder := None)
    case Holding(k, role) =>
      var s' := Goto(s, t, Idle).(next := s.next - {k});
      if role == Worker then s'.(executed := s.executed + [k]) else s'.(discarded := s.discarded + [k])
  }

  // ---------------------------------------------------------------- the invariant

  predicate Critical(pc: PC) {
    || pc.AddLocked? || pc.AddStored? || pc.AddMoved?
    || pc.PopLocked? || pc.PopRead? || pc.PopAdvanced? || pc.PopReset? || pc.PopEmpty?
  }

  /** The thread with the lock, and no other, is between lock and unlock. */
  predicate LockOk(s: State) {
    && (forall t :: 0 <= t < |s.pcs| ==> (Critical(s.pcs[t]) <==> s.holder == Some(t)))
    && (s.holder.Some? ==> s.holder.value < |s.pcs|)
  }

  function At(q: seq<nat>, i: nat): Option<nat> {
    if i < |q| then Some(q[i]) else None
  }

  /** The links lead through `q` from the head. */
  predicate Chain(head: Option<nat>, next: map<nat, Option<nat>>, q: seq<nat>) {
    head == At(q, 0) && forall i :: 0 <= i < |q| ==> q[i] in next && next[q[i]] == At(q, i + 1)
  }

  function TailOf(q: seq<nat>): Slot {
    if q == [] then HeadSlot else LinkOf(q[|q| - 1])
  }

  /**
   The tail is the head slot exactly when the queue is empty, else the link of the last task, but for the two
   half-done updates.
   */
  predicate TailOk(tail: Slot, q: seq<nat>, pc: PC) {
    match pc
    case AddStored(k) => q != [] && q[|q| - 1] == k && tail == TailOf(q[..|q| - 1])
    case PopAdvanced(k, _) => tail == TailOf([k] + q)
    case PopRead(k, _) => tail == TailOf(q) && q != [] && q[0] == k
    case PopEmpty => tail == TailOf(q) && q == []
    case _ => tail == TailOf(q)
  }

  /** The thread that has the lock. */
  function Inside(s: State): PC {
    if s.holder.Some? && s.holder.value < |s.pcs| then s.pcs[s.holder.value] else Idle
  }

  predicate ListOk(s: State) {
    Chain(s.head, s.next, s.queue) && TailOk(s.tail, s.queue, Inside(s))
  }

  /** The task that a poster has not linked yet. */
  function Making(pc: PC): Option<nat> {
    if pc.Prepared? || pc.AddLocked? then Some(pc.k) else None
  }

  /** The task that was taken from the queue and is in flight. */
  function InFlight(pc: PC): Option<nat> {
    if pc.PopAdvanced? || pc.PopReset? || pc.Holding? then Some(pc.k) else None
  }

  /** Some poster has the task in hand and has not linked it yet. */
  predicate InHand(s: State, k: nat) {
    exists t :: 0 <= t < |s.pcs| && Making(s.pcs[t]) == Some(k)
  }

  /** Every task that was allocated is linked or in the hands of one poster, and not both. */
  predicate MakingOk(s: State) {
    && (forall k: nat :: k < s.made ==> k in s.linked || InHand(s, k))
    && (forall t :: 0 <= t < |s.pcs| && Making(s.pcs[t]).Some? ==>
      var k := Making(s.pcs[t]).value; k < s.made && k !in s.linked && k in s.next && s.next[k] == None)
    && forall t, u :: 0 <= t < u < |s.pcs| && Making(s.pcs[t]).Some? ==> Making(s.pcs[t]) != Making(s.pcs[u])
  }

  predicate Finished(s: State, k: nat) {
    k in s.executed || k in s.discarded
  }

  /** Tasks leave the list in the order in which they entered it, each once. */
  predicate OrderOk(s: State) {
    && s.linked == s.popped + s.queue && Injective(s.linked)
    && forall k :: k in s.linked ==> k < s.made
  }

  /** A task that left the list is in flight in one thread, or was executed once, or discarded once. */
  ghost predicate FateOk(s: State) {
    && Injective(s.executed) && Injective(s.discarded) && (forall k :: k in s.executed ==> k !in s.discarded)
    && (forall k :: Finished(s, k) ==> k in s.popped)
    && (forall k :: k in s.popped ==> Finished(s, k) || Carried(s, k))
    && (forall t :: 0 <= t < |s.pcs| && InFlight(s.pcs[t]).Some? ==>
      var k := InFlight(s.pcs[t]).value; k in s.popped && !Finished(s, k) && k in s.next)
    && forall t, u :: 0 <= t < u < |s.pcs| && InFlight(s.pcs[t]).Some? ==> InFlight(s.pcs[t]) != InFlight(s.pcs[u])
  }

  predicate Carried(s: State, k: nat) {
    exists t :: 0 <= t < |s.pcs| && InFlight(s.pcs[t]) == Some(k)
  }

  ghost predicate Inv(s: State) {
    LockOk(s) && ListOk(s) && MakingOk(s) && OrderOk(s) && FateOk(s)
  }

  lemma InvSafe(s: State, t: nat)
    requires Inv(s) && t < |s.pcs|
    ensures Safe(s, t)
  {
    assert Critical(s.pcs[t]) ==> s.holder == Some(t);
    if s.queue != [] {
      assert s.queue[|s.queue| - 1] in s.next;
    }
  }

  lemma LockKept(s: State, t: nat, c: Choice)
    requires Inv(s) && Safe(s, t)
    ensures LockOk(Next(s, t, c))
  {
    hide ListOk, MakingOk, OrderOk, FateOk;
  }

  lemma ChainAdded(head: Option<nat>, next: map<nat, Option<nat>>, q: seq<nat>, k: nat)
    requires Chain(head, next, q) && Injective(q) && k !in q && k in next && next[k] == None
    ensures TailOf(q) == HeadSlot ==> Chain(Some(k), next, q + [k])
    ensures TailOf(q) != HeadSlot ==> TailOf(q).task in next && Chain(head, next[TailOf(q).task := Some(k)], q + [k])
  {
    if q != [] {
      var last := q[|q| - 1];
      assert last in next;
      forall i | 0 <= i < |q| + 1
        ensures var n' := next[last := Some(k)]; (q + [k])[i] in n' && n'[(q + [k])[i]] == At(q + [k], i + 1)
      {
        if i < |q| - 1 {
          assert q[i] != last;
        }
      }
    }
  }

  lemma ChainRest(head: Option<nat>, next: map<nat, Option<nat>>, q: seq<nat>)
    requires Chain(head, next, q) && q != []
    ensures q[0] in next && Chain(next[q[0]], next, q[1..])
  {
    forall i | 0 <= i < |q| - 1 ensures q[1..][i] in next && next[q[1..][i]] == At(q[1..], i + 1) {
      assert q[1..][i] == q[i + 1];
    }
  }

  /** What happens to links outside the list does not matter to it. */
  lemma ChainElsewhere(head: Option<nat>, next: map<nat, Option<nat>>, next': map<nat, Option<nat>>, q: seq<nat>)
    requires Chain(head, next, q) && forall k :: k in q && k in next ==> k in next' && next'[k] == next[k]
    ensures Chain(head, next', q)
  {
  }

  /** What the history says about the queue and about the tasks that the thread `t` has in hand. */
  lemma Apart(s: State, t: nat)
    requires Inv(s) && t < |s.pcs|
    ensures Injective(s.queue) && forall k :: k in s.queue ==> k in s.linked && k !in s.popped && k < s.made
    ensures forall k :: k in s.linked <==> k in s.popped || k in s.queue
    ensures Making(s.pcs[t]).Some? ==>
      var k := Making(s.pcs[t]).value; k !in s.linked && k in s.next && s.next[k] == None && k < s.made
    ensures InFlight(s.pcs[t]).Some? ==>
      var k := InFlight(s.pcs[t]).value; k in s.popped && k !in s.queue && !Finished(s, k) && k in s.next
    ensures Critical(s.pcs[t]) <==> s.holder == Some(t)
  {
    InjectiveParts(s.popped, s.queue);
    assert forall k :: k in s.linked <==> k in s.popped || k in s.queue;
  }

  /** How a step changes who is inside the lock. */
  lemma InsideStep(s: State, t: nat, c: Choice)
    requires LockOk(s) && Safe(s, t)
    ensures var s' := Next(s, t, c);
      && t < |s'.pcs|
      && if Critical(s.pcs[t]) then
           Inside(s) == s.pcs[t] && Inside(s') == if Critical(s'.pcs[t]) then s'.pcs[t] else Idle
         else
           Inside(s') == Inside(s) || (Inside(s) == Idle && (Inside(s').PopLocked? || Inside(s').AddLocked?))
  {
  }

  lemma TailStored(tail: Slot, q: seq<nat>, k: nat)
    requires tail == TailOf(q)
    ensures TailOk(tail, q + [k], AddStored(k)) && TailOk(LinkOf(k), q + [k], AddMoved(k))
  {
    assert (q + [k])[..|q|] == q;
  }

  lemma TailRead(tail: Slot, q: seq<nat>, k: nat, role: Role)
    requires TailOk(tail, q, PopRead(k, role))
    ensures TailOk(tail, q[1..], PopAdvanced(k, role))
  {
    assert [k] + q[1..] == q;
  }

  lemma TailAdvanced(head: Option<nat>, tail: Slot, q: seq<nat>, k: nat, role: Role)
    requires head == At(q, 0) && TailOk(tail, q, PopAdvanced(k, role))
    ensures (if head == None then HeadSlot else tail) == TailOf(q)
  {
    if q != [] {
      assert ([k] + q)[|q|] == q[|q| - 1];
    }
  }

  lemma ListKeptStoring(s: State, t: nat, c: Choice)
    requires Inv(s) && Safe(s, t) && s.pcs[t].AddLocked?
    ensures ListOk(Next(s, t, c))
  {
    Apart(s, t);
    InsideStep(s, t, c);
    var s', k := Next(s, t, c), s.pcs[t].k;
    hide Inside, LockOk, MakingOk, OrderOk, FateOk;
    ChainAdded(s.head, s.next, s.queue, k);
    TailStored(s.tail, s.queue, k);
    hide Chain;
  }

  lemma ListKeptInside(s: State, t: nat, c: Choice)
    requires Inv(s) && Safe(s, t) && Critical(s.pcs[t]) && !s.pcs[t].AddLocked?
    ensures ListOk(Next(s, t, c))
  {
    InsideStep(s, t, c);
    hide Inside, LockOk, MakingOk, OrderOk, FateOk;
    if s.pcs[t].PopRead? {
      ChainRest(s.head, s.next, s.queue);
      TailRead(s.tail, s.queue, s.pcs[t].k, s.pcs[t].role);
      hide Chain, TailOk;
    } else if s.pcs[t].PopAdvanced? {
      TailAdvanced(s.head, s.tail, s.queue, s.pcs[t].k, s.pcs[t].role);
      hide Chain;
    }
  }

  lemma ListKeptOutside(s: State, t: nat, c: Choice)
    requires Inv(s) && Safe(s, t) && !Critical(s.pcs[t])
    ensures ListOk(Next(s, t, c))
  {
    Apart(s, t);
    InsideStep(s, t, c);
    var s' := Next(s, t, c);
    assert s'.head == s.head && s'.tail == s.tail && s'.queue == s.queue;
    hide Inside, LockOk, MakingOk, OrderOk, FateOk;
    ChainElsewhere(s.head, s.next, s'.next, s.queue);
    hide Next, Chain;
  }

  lemma ListKept(s: State, t: nat, c: Choice)
    requires Inv(s) && Safe(s, t) && t < |s.pcs|
    ensures ListOk(Next(s, t, c))
  {
    hide Inv, Safe, Next, ListOk;
    if s.pcs[t].AddLocked? {
      ListKeptStoring(s, t, c);
    } else if Critical(s.pcs[t]) {
      ListKeptInside(s, t, c);
    } else {
      ListKeptOutside(s, t, c);
    }
  }

  /** Two threads do not have the same task in hand. */
  lemma HandsApart(s: State, t: nat, u: nat)
    requires Inv(s) && t < |s.pcs| && u < |s.pcs| && t != u
    ensures Making(s.pcs[t]).Some? ==> Making(s.pcs[t]) != Making(s.pcs[u])
    ensures InFlight(s.pcs[t]).Some? ==> InFlight(s.pcs[t]) != InFlight(s.pcs[u])
  {
  }

  /** A step leaves the links of unlinked tasks alone, and of tasks in flight it takes away only the one it frees. */
  lemma NextLinks(s: State, t: nat, c: Choice, k: nat)
    requires Inv(s) && Safe(s, t) && k in s.next && k < s.made
    ensures var s' := Next(s, t, c);
      && (k !in s.linked ==> k in s'.next && s'.next[k] == s.next[k])
      && (!(s.pcs[t].Holding? && s.pcs[t].k == k) ==> k in s'.next)
  {
    Apart(s, t);
  }

  /** How a step changes the unlinked task of a thread. */
  lemma MakingStep(s: State, t: nat, c: Choice, u: nat)
    requires Safe(s, t) && u < |s.pcs|
    ensures u < |Next(s, t, c).pcs|
    ensures Making(Next(s, t, c).pcs[u]) ==
      if u != t || s.pcs[t].Prepared? then Making(s.pcs[u])
      else if s.pcs[t].Idle? && c.Post? then Some(s.made) else None
  {
  }

  lemma LinkedStep(s: State, t: nat, c: Choice)
    requires Safe(s, t)
    ensures var s' := Next(s, t, c);
      && s'.linked == (if s.pcs[t].AddLocked? then s.linked + [s.pcs[t].k] else s.linked)
      && s'.queue == (
        if s.pcs[t].AddLocked? then s.queue + [s.pcs[t].k]
        else if s.pcs[t].PopRead? then s.queue[1..]
        else s.queue)
      && s'.made == (if s.pcs[t].Idle? && c.Post? then s.made + 1 else s.made)
      && (s.pcs[t].Idle? && c.Post? ==> s.made in s'.next && s'.next[s.made] == None)
  {
  }

  lemma MakerKept(s: State, t: nat, c: Choice, u: nat)
    requires Inv(s) && Safe(s, t) && u < |s.pcs| && Making(Next(s, t, c).pcs[u]).Some?
    ensures var s' := Next(s, t, c);
      var k := Making(s'.pcs[u]).value; k < s'.made && k !in s'.linked && k in s'.next && s'.next[k] == None
  {
    MakingStep(s, t, c, u);
    var k := Making(Next(s, t, c).pcs[u]).value;
    LinkedStep(s, t, c);
    hide ListOk, OrderOk, FateOk;
    Apart(s, t);
    Apart(s, u);
    if u != t {
      HandsApart(s, t, u);
    }
    if k < s.made {
      NextLinks(s, t, c, k);
      hide Next;
    }
  }

  lemma MakersKept(s: State, t: nat, c: Choice, u: nat, v: nat)
    requires Inv(s) && Safe(s, t) && u < |s.pcs| && v < |s.pcs| && u != v && |Next(s, t, c).pcs| == |s.pcs|
    requires Making(Next(s, t, c).pcs[u]).Some?
    ensures Making(Next(s, t, c).pcs[u]) != Making(Next(s, t, c).pcs[v])
  {
    MakingStep(s, t, c, u);
    MakingStep(s, t, c, v);
    hide Next, Safe;
    Apart(s, u);
    Apart(s, v);
    HandsApart(s, u, v);
  }

  /** A task leaves the hands of its poster only by being linked. */
  lemma HandKept(s: State, t: nat, c: Choice, k: nat)
    requires Inv(s) && Safe(s, t) && k < Next(s, t, c).made
    ensures k in Next(s, t, c).linked || InHand(Next(s, t, c), k)
  {
    var s' := Next(s, t, c);
    FateStep(s, t, c);
    LinkedStep(s, t, c);
    MakingStep(s, t, c, t);
    if k >= s.made {
      hide Next, Inv;
      assert Making(s'.pcs[t]) == Some(k);
    } else if k !in s.linked {
      var u :| 0 <= u < |s.pcs| && Making(s.pcs[u]) == Some(k);
      MakingStep(s, t, c, u);
      hide Next, Inv, Safe;
      if !(u == t && s.pcs[t].AddLocked?) {
        assert Making(s'.pcs[u]) == Some(k);
      }
    } else {
      hide Next, Inv;
    }
  }

  lemma MakingKept(s: State, t: nat, c: Choice)
    requires Inv(s) && Safe(s, t)
    ensures MakingOk(Next(s, t, c))
  {
    var s' := Next(s, t, c);
    assert |s'.pcs| == |s.pcs|;
    hide Inv, Safe, Next, InHand;
    forall k: nat | k < s'.made ensures k in s'.linked || InHand(s', k) {
      HandKept(s, t, c, k);
    }
    forall u | 0 <= u < |s.pcs| && Making(s'.pcs[u]).Some?
      ensures var k := Making(s'.pcs[u]).value; k < s'.made && k !in s'.linked && k in s'.next && s'.next[k] == None
    {
      MakerKept(s, t, c, u);
    }
    forall u, v | 0 <= u < v < |s.pcs| && Making(s'.pcs[u]).Some?
      ensures Making(s'.pcs[u]) != Making(s'.pcs[v])
    {
      MakersKept(s, t, c, u, v);
    }
  }

  /** How a step changes the task in flight in a thread. */
  lemma InFlightStep(s: State, t: nat, c: Choice, u: nat)
    requires Safe(s, t) && u < |s.pcs|
    ensures u < |Next(s, t, c).pcs|
    ensures InFlight(Next(s, t, c).pcs[u]) ==
      if u != t || s.pcs[t].PopAdvanced? || s.pcs[t].PopReset? then InFlight(s.pcs[u])
      else if s.pcs[t].PopRead? then Some(s.pcs[t].k) else None
  {
  }

  lemma FateStep(s: State, t: nat, c: Choice)
    requires Safe(s, t)
    ensures var s' := Next(s, t, c);
      && |s'.pcs| == |s.pcs|
      && s'.popped == (if s.pcs[t].PopRead? then s.popped + [s.pcs[t].k] else s.popped)
      && s'.executed == (if s.pcs[t].Holding? && s.pcs[t].role == Worker then s.executed + [s.pcs[t].k] else s.executed)
      && s'.discarded == (if s.pcs[t].Holding? && s.pcs[t].role == Destroyer
        then s.discarded + [s.pcs[t].k]
        else s.discarded)
  {
  }

  lemma ReadIsFirst(s: State, t: nat)
    requires Inv(s) && t < |s.pcs| && s.pcs[t].PopRead?
    ensures s.queue != [] && s.queue[0] == s.pcs[t].k && s.pcs[t].k in s.next && s.pcs[t].k !in s.popped
      && s.pcs[t].k < s.made
  {
    Apart(s, t);
    assert Inside(s) == s.pcs[t];
    assert s.queue[0] in s.queue;
  }

  lemma OrderAdded(s: State, s': State, k: nat)
    requires OrderOk(s) && k !in s.linked && k < s.made == s'.made
    requires s'.linked == s.linked + [k] && s'.popped == s.popped && s'.queue == s.queue + [k]
    ensures OrderOk(s')
  {
    assert s'.linked == s'.popped + s'.queue;
  }

  lemma OrderPopped(s: State, s': State)
    requires OrderOk(s) && s.queue != [] && s'.made == s.made
    requires s'.linked == s.linked && s'.popped == s.popped + [s.queue[0]] && s'.queue == s.queue[1..]
    ensures OrderOk(s')
  {
    assert s'.linked == s'.popped + s'.queue;
  }

  lemma OrderKept(s: State, t: nat, c: Choice)
    requires Inv(s) && Safe(s, t)
    ensures OrderOk(Next(s, t, c))
  {
    Apart(s, t);
    LinkedStep(s, t, c);
    FateStep(s, t, c);
    if s.pcs[t].AddLocked? {
      OrderAdded(s, Next(s, t, c), s.pcs[t].k);
    } else if s.pcs[t].PopRead? {
      ReadIsFirst(s, t);
      OrderPopped(s, Next(s, t, c));
    }
    hide Next, Injective;
  }

  lemma CarriedKept(s: State, t: nat, c: Choice, k: nat)
    requires Inv(s) && Safe(s, t) && k in Next(s, t, c).popped
    ensures Finished(Next(s, t, c), k) || Carried(Next(s, t, c), k)
  {
    FateStep(s, t, c);
    InFlightStep(s, t, c, t);
    if k in s.popped && !Finished(s, k) {
      var u :| 0 <= u < |s.pcs| && InFlight(s.pcs[u]) == Some(k);
      InFlightStep(s, t, c, u);
      hide Next;
      assert u != t || !s.pcs[t].Holding? ==> InFlight(Next(s, t, c).pcs[u]) == Some(k);
    }
  }

  lemma FlightKept(s: State, t: nat, c: Choice, u: nat)
    requires Inv(s) && Safe(s, t) && u < |s.pcs| == |Next(s, t, c).pcs| && InFlight(Next(s, t, c).pcs[u]).Some?
    ensures var s' := Next(s, t, c);
      var k := InFlight(s'.pcs[u]).value; k in s'.popped && !Finished(s', k) && k in s'.next
  {
    FateStep(s, t, c);
    InFlightStep(s, t, c, u);
    Apart(s, t);
    Apart(s, u);
    var k := InFlight(Next(s, t, c).pcs[u]).value;
    if u == t && s.pcs[t].PopRead? {
      ReadIsFirst(s, t);
    } else if u != t {
      HandsApart(s, t, u);
    }
    hide ListOk, MakingOk, LockOk;
    assert k < s.made;
    NextLinks(s, t, c, k);
    hide Next, OrderOk;
  }

  lemma FlightsKept(s: State, t: nat, c: Choice, u: nat, v: nat)
    requires Inv(s) && Safe(s, t) && u < |s.pcs| == |Next(s, t, c).pcs| && v < |s.pcs| && u != v
    requires InFlight(Next(s, t, c).pcs[u]).Some?
    ensures InFlight(Next(s, t, c).pcs[u]) != InFlight(Next(s, t, c).pcs[v])
  {
    InFlightStep(s, t, c, u);
    InFlightStep(s, t, c, v);
    hide Next;
    Apart(s, t);
    Apart(s, u);
    Apart(s, v);
    HandsApart(s, u, v);
  }

  lemma FinishedKept(s: State, t: nat, c: Choice)
    requires Inv(s) && Safe(s, t)
    ensures var s' := Next(s, t, c);
      && Injective(s'.executed) && Injective(s'.discarded) && (forall k :: k in s'.executed ==> k !in s'.discarded)
      && forall k :: Finished(s', k) ==> k in s'.popped
  {
    FateStep(s, t, c);
    if s.pcs[t].Holding? {
      assert InFlight(s.pcs[t]) == Some(s.pcs[t].k);
    }
    hide Next, Safe, MakingOk, OrderOk, ListOk, LockOk;
  }

  lemma FateKept(s: State, t: nat, c: Choice)
    requires Inv(s) && Safe(s, t)
    ensures FateOk(Next(s, t, c))
  {
    var s' := Next(s, t, c);
    FateStep(s, t, c);
    FinishedKept(s, t, c);
    hide Inv, Next, Safe, Carried, Finished;
    forall k | k in s'.popped ensures Finished(s', k) || Carried(s', k) {
      CarriedKept(s, t, c, k);
    }
    forall u | 0 <= u < |s'.pcs| && InFlight(s'.pcs[u]).Some?
      ensures var k := InFlight(s'.pcs[u]).value; k in s'.popped && !Finished(s', k) && k in s'.next
    {
      FlightKept(s, t, c, u);
    }
    forall u, v | 0 <= u < v < |s'.pcs| && InFlight(s'.pcs[u]).Some?
      ensures InFlight(s'.pcs[u]) != InFlight(s'.pcs[v])
    {
      FlightsKept(s, t, c, u, v);
    }
  }

  // ---------------------------------------------------------------- whole runs

  lemma Kept(s: State, t: nat, c: Choice)
    requires Inv(s) && t < |s.pcs|
    ensures Safe(s, t) && Inv(Next(s, t, c)) && |Next(s, t, c).pcs| == |s.pcs|
  {
    InvSafe(s, t);
    LockKept(s, t, c);
    ListKept(s, t, c);
    MakingKept(s, t, c);
    OrderKept(s, t, c);
    FateKept(s, t, c);
    FateStep(s, t, c);
    hide LockOk, ListOk, MakingOk, OrderOk, FateOk, Next, Safe;
  }

  /**
   The state after a run in which the threads take steps in the given order; a thread number beyond the last is
   skipped.
   */
  ghost function Run(threads: nat, schedule: seq<(nat, Choice)>): (s: State)
    ensures Inv(s) && |s.pcs| == threads
  {
    if schedule == [] then Start(threads)
    else
      var n := |schedule| - 1;
      var s, (t, c) := Run(threads, schedule[..n]), schedule[n];
      if t < threads then Kept(s, t, c); Next(s, t, c) else s
  }

  /**
   Whenever nobody has the lock, the tail is the head slot if the queue is empty and else the link of its last
   task.
   */
  lemma TailWhenFree(threads: nat, schedule: seq<(nat, Choice)>)
    ensures var s := Run(threads, schedule);
      s.holder == None ==>
        && (s.tail == HeadSlot <==> s.queue == []) && (s.head == None <==> s.queue == [])
        && (s.queue != [] ==> s.tail == LinkOf(s.queue[|s.queue| - 1]) && s.head == Some(s.queue[0]))
  {
    var s := Run(threads, schedule);
    assert s.holder == None ==> Inside(s) == Idle;
  }

  /** Tasks leave the queue in the order in which they were linked. */
  lemma Fifo(threads: nat, schedule: seq<(nat, Choice)>)
    ensures var s := Run(threads, schedule); s.linked == s.popped + s.queue && Injective(s.linked)
  {
    var s := Run(threads, schedule);
  }

  /** For whom a thread is taking a task out of the queue, or has taken one. */
  function RoleOf(pc: PC): Option<Role> {
    if pc.PopLocked? || pc.PopRead? || pc.PopAdvanced? || pc.PopReset? || pc.Holding? then Some(pc.role) else None
  }

  /** Nobody acts, or has acted, in the role. */
  predicate Unused(s: State, role: Role) {
    && (forall t :: 0 <= t < |s.pcs| ==> RoleOf(s.pcs[t]) != Some(role))
    && if role == Worker then s.executed == [] else s.discarded == []
  }

  lemma UnusedKept(s: State, t: nat, c: Choice, role: Role)
    requires Safe(s, t) && Unused(s, role) && c != Pop(role)
    ensures Unused(Next(s, t, c), role)
  {
  }

  /**
   What becomes of a task depends on who takes it: without a call of the final clean-up nothing is discarded,
   and without a worker nothing is executed.
   */
  lemma {:induction false} RolesDecide(threads: nat, schedule: seq<(nat, Choice)>, role: Role)
    requires forall i :: 0 <= i < |schedule| ==> schedule[i].1 != Pop(role)
    ensures Unused(Run(threads, schedule), role)
    ensures if role == Worker then Run(threads, schedule).executed == [] else Run(threads, schedule).discarded == []
    decreases |schedule|
  {
    if schedule != [] {
      var n := |schedule| - 1;
      RolesDecide(threads, schedule[..n], role);
      var s, t, c := Run(threads, schedule[..n]), schedule[n].0, schedule[n].1;
      if t < threads {
        InvSafe(s, t);
        UnusedKept(s, t, c, role);
      }
    }
  }

  /** The places of a task after it was posted. */
  datatype Place = Posting | Queued | Taken | Executed | Discarded

  predicate IsAt(s: State, k: nat, place: Place) {
    match place
    case Posting => InHand(s, k)
    case Queued => k in s.queue
    case Taken => Carried(s, k)
    case Executed => k in s.executed
    case Discarded => k in s.discarded
  }

  function PlaceOf(s: State, k: nat): Place {
    if InHand(s, k) then Posting
    else if k in s.queue then Queued
    else if Carried(s, k) then Taken
    else if k in s.executed then Executed
    else Discarded
  }

  lemma InHandApart(s: State, k: nat)
    requires Inv(s) && InHand(s, k)
    ensures k < s.made && k !in s.linked
  {
    var t :| 0 <= t < |s.pcs| && Making(s.pcs[t]) == Some(k);
    Apart(s, t);
  }

  lemma CarriedApart(s: State, k: nat)
    requires Inv(s) && Carried(s, k)
    ensures k in s.popped && !Finished(s, k)
  {
    var t :| 0 <= t < |s.pcs| && InFlight(s.pcs[t]) == Some(k);
    Apart(s, t);
  }

  lemma Places(s: State, k: nat)
    requires Inv(s)
    ensures k < s.made ==> IsAt(s, k, PlaceOf(s, k))
    ensures forall place :: IsAt(s, k, place) ==> k < s.made && place == PlaceOf(s, k)
  {
    InjectiveParts(s.popped, s.queue);
    assert k in s.linked <==> k in s.popped || k in s.queue;
    if InHand(s, k) {
      InHandApart(s, k);
    }
    if Carried(s, k) {
      CarriedApart(s, k);
    }
    assert k in s.popped ==> Finished(s, k) || Carried(s, k);
    hide LockOk, ListOk, InHand, Carried, Injective;
  }

  /** Every posted task is in exactly one place. */
  lemma Conserved(threads: nat, schedule: seq<(nat, Choice)>, k: nat)
    ensures var s := Run(threads, schedule);
      && (k < s.made <==> exists place :: IsAt(s, k, place))
      && (forall p, q :: IsAt(s, k, p) && IsAt(s, k, q) ==> p == q)
  {
    var s := Run(threads, schedule);
    Places(s, k);
    hide Run, IsAt, PlaceOf;
  }

  /** And it is there once: in the hands of one poster or one worker, once in the queue, once executed or discarded. */
  lemma ConservedOnce(threads: nat, schedule: seq<(nat, Choice)>, t: nat, u: nat)
    requires t < threads && u < threads && t != u
    ensures var s := Run(threads, schedule);
      && (Making(s.pcs[t]).Some? ==> Making(s.pcs[t]) != Making(s.pcs[u]))
      && (InFlight(s.pcs[t]).Some? ==> InFlight(s.pcs[t]) != InFlight(s.pcs[u]))
      && Injective(s.queue) && Injective(s.executed) && Injective(s.discarded)
  {
    var s := Run(threads, schedule);
    HandsApart(s, t, u);
    InjectiveParts(s.popped, s.queue);
  }
}
