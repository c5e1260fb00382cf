/**
 The coroutine scheduler: where a coroutine is between two steps, and what one pass of the loop runs.

 Coroutines that sleep for a positive time are not part of this model, because that call does not give
 up the processor; `NtySleep` has them.  A resume runs the body of a coroutine up to the next point where
 it gives up the processor; what the body does until then is a list of acts, chosen by an arbitrary
 function.  The ready queue and the wait tree are the linked ones of `NtyPlaces`.
 */
module NtySchedule {
  import opened NtyPlaces
  import opened Sequences

  /** The bits of the status word, from bit 0 upwards, as far as the scheduler uses them. */
  datatype Flag = WaitRead | WaitWrite | New | Ready | Exited | Sleeping | Expired | Fdeof | Detach

  /** Neither at its end nor marked as waiting. */
  predicate Clean(status: set<Flag>) {
    {WaitRead, WaitWrite, Exited, Fdeof} !! status
  }

  class Coroutine {
    var status: set<Flag>
    var fd: int
    var ops: nat
    var polling: bool

    constructor Spawn()
      ensures status == {New} && fd == -1 && ops == 0 && !polling
    {
      status, fd, ops, polling := {New}, -1, 0, false;
    }
  }

  /** What a body may do: `Poll` and `Pause` give up the processor, `Renice` does so every fifth time. */
  datatype Act = Create | Renice | Pause | Poll(fd: int, out: bool)

  /** How a resumed body gives up the processor. */
  datatype Ending = Requeued | Polling(fd: int, out: bool) | Returned

  /**
   How many coroutines a body creates until it gives up the processor, and how it does; `ops` counts its earlier
   calls to renice.
   */
  function Outcome(ops: nat, acts: seq<Act>): (nat, Ending)
    decreases |acts|
  {
    if acts == [] then (0, Returned)
    else
      match acts[0]
      case Create => var (n, end) := Outcome(ops, acts[1..]); (n + 1, end)
      case Renice => if ops + 1 >= 5 then (0, Requeued) else Outcome(ops + 1, acts[1..])
      case Pause => (0, Requeued)
      case Poll(fd, out) => (0, Polling(fd, out))
  }

  /** How often the act occurs. */
  function Count(acts: seq<Act>, a: Act): nat {
    if acts == [] then 0 else (if acts[0] == a then 1 else 0) + Count(acts[1..], a)
  }

  /**
   A body runs up to the first act that gives up the processor: a pause, a poll, or the renice with which the
   fifth since the last yield is reached.  The coroutines created are those before it.
   */
  lemma {:induction false} OutcomeFirst(ops: nat, acts: seq<Act>, i: nat)
    requires i < |acts|
    requires acts[i].Pause? || acts[i].Poll? || (acts[i].Renice? && ops + Count(acts[..i + 1], Renice) >= 5)
    requires forall j :: 0 <= j < i ==>
      acts[j].Create? || (acts[j].Renice? && ops + Count(acts[..j + 1], Renice) < 5)
    ensures Outcome(ops, acts) ==
      (Count(acts[..i], Create), if acts[i].Poll? then Polling(acts[i].fd, acts[i].out) else Requeued)
    decreases i
  {
    assert acts[..i + 1][1..] == acts[1..][..i];
    if i > 0 {
      var ops', rest := if acts[0].Renice? then ops + 1 else ops, acts[1..];
      assert acts[..i][1..] == rest[..i - 1];
      assert acts[..1] == [acts[0]];
      forall j | 0 <= j < i - 1
        ensures rest[j].Create? || (rest[j].Renice? && ops' + Count(rest[..j + 1], Renice) < 5)
      {
        assert acts[j + 1] == rest[j] && acts[..j + 2][1..] == rest[..j + 1];
      }
      OutcomeFirst(ops', rest, i - 1);
    } else {
      assert acts[..1][1..] == [];
    }
  }

  /** A body without such an act ends. */
  lemma {:induction false} OutcomeNone(ops: nat, acts: seq<Act>)
    requires forall j :: 0 <= j < |acts| ==>
      acts[j].Create? || (acts[j].Renice? && ops + Count(acts[..j + 1], Renice) < 5)
    ensures Outcome(ops, acts) == (Count(acts, Create), Returned)
    decreases |acts|
  {
    if acts != [] {
      var ops', rest := if acts[0].Renice? then ops + 1 else ops, acts[1..];
      assert acts[..1][1..] == [];
      forall j | 0 <= j < |rest|
        ensures rest[j].Create? || (rest[j].Renice? && ops' + Count(rest[..j + 1], Renice) < 5)
      {
        assert acts[j + 1] == rest[j] && acts[..j + 2][1..] == rest[..j + 1];
      }
      OutcomeNone(ops', rest);
    }
  }

  lemma {:induction false} CountCreations(acts: seq<Act>)
    requires forall j :: 0 <= j < |acts| ==> acts[j].Create?
    ensures Count(acts, Create) == |acts| && Count(acts, Renice) == 0
  {
    if acts != [] {
      CountCreations(acts[1..]);
    }
  }

  /** An event for a registered descriptor; `eof` is the hang-up bit. */
  datatype Event = Event(fd: int, eof: bool)

  /** One event for each of some registered descriptors. */
  predicate Deliverable(events: seq<Event>, registered: set<int>) {
    && (forall i :: 0 <= i < |events| ==> events[i].fd in registered)
    && (forall i, j :: 0 <= i < j < |events| ==> events[i].fd != events[j].fd)
  }

  /** What the outside decides: the acts of each resumed body and the events that the poller reports, by pass. */
  datatype World = World(bursts: (nat, nat) -> seq<Act>, replies: (nat, nat) -> seq<Act>, events: nat -> seq<Event>)

  /** Who is queued and who waits at some point of a run. */
  datatype Moment = Moment(ready: seq<Coroutine>, waiting: map<int, Coroutine>)

  /** How the queue and the tree change when `co` runs until it stops like this. */
  predicate Stopped(co: Coroutine, o: (nat, Ending), was: Moment, now: Moment) {
    && was.ready <= now.ready && |now.ready| == |was.ready| + o.0 + (if o.1 == Requeued then 1 else 0)
    && (o.1 == Requeued ==> now.ready[|now.ready| - 1] == co)
    && now.waiting == (if o.1.Polling? then was.waiting[o.1.fd := co] else was.waiting)
    && (o.1.Polling? ==> o.1.fd !in was.waiting)
  }

  /** After creations a pause queues the coroutine behind its children, and nothing later is done. */
  lemma PausedAfter(co: Coroutine, ops: nat, acts: seq<Act>, was: Moment, now: Moment, n: nat)
    requires Stopped(co, Outcome(ops, acts), was, now)
    requires n < |acts| && acts[n].Pause? && forall j :: 0 <= j < n ==> acts[j].Create?
    ensures Outcome(ops, acts) == (n, Requeued)
    ensures was.ready <= now.ready && |now.ready| == |was.ready| + n + 1 && now.ready[|now.ready| - 1] == co
    ensures now.waiting == was.waiting
  {
    OutcomeFirst(ops, acts, n);
    CountCreations(acts[..n]);
  }

  lemma PausedAny(co: Coroutine, ops: nat, acts: seq<Act>, was: Moment, now: Moment)
    requires Stopped(co, Outcome(ops, acts), was, now)
    ensures forall n :: 0 <= n < |acts| && acts[n].Pause? && (forall j :: 0 <= j < n ==> acts[j].Create?) ==>
      && Outcome(ops, acts) == (n, Requeued) && was.ready <= now.ready && |now.ready| == |was.ready| + n + 1
      && now.ready[|now.ready| - 1] == co && now.waiting == was.waiting
  {
    forall n | 0 <= n < |acts| && acts[n].Pause? && (forall j :: 0 <= j < n ==> acts[j].Create?)
      ensures Outcome(ops, acts) == (n, Requeued) && was.ready <= now.ready && |now.ready| == |was.ready| + n + 1
      ensures now.ready[|now.ready| - 1] == co && now.waiting == was.waiting
    {
      PausedAfter(co, ops, acts, was, now, n);
    }
  }

  lemma StillWaiting(co: Coroutine, o: (nat, Ending), was: Moment, now: Moment)
    requires Stopped(co, o, was, now)
    ensures was.ready <= now.ready
    ensures forall fd :: fd in was.waiting ==> fd in now.waiting && now.waiting[fd] == was.waiting[fd]
  {
  }

  /** So many coroutines were created. */
  predicate Grown(made: nat, was: Moment, now: Moment) {
    was.ready <= now.ready && |now.ready| == |was.ready| + made && was.waiting == now.waiting
  }

  lemma GrownMore(made: nat, more: nat, was: Moment, mid: Moment, now: Moment)
    requires Grown(made, was, mid) && Grown(more, mid, now)
    ensures Grown(made + more, was, now)
  {
  }

  lemma GrownStopped(co: Coroutine, made: nat, o: (nat, Ending), was: Moment, mid: Moment, now: Moment)
    requires Grown(made, was, mid) && Stopped(co, o, mid, now)
    ensures Stopped(co, (made + o.0, o.1), was, now)
  {
  }

  /** The acts before place `i` have created `made` coroutines, and the rest decides how the body goes on. */
  predicate Underway(ops0: nat, acts: seq<Act>, i: nat, ops: nat, made: nat, was: Moment, now: Moment) {
    && i <= |acts| && Grown(made, was, now)
    && Outcome(ops0, acts) == (made + Outcome(ops, acts[i..]).0, Outcome(ops, acts[i..]).1)
  }

  lemma UnderwayStart(ops: nat, acts: seq<Act>, was: Moment)
    ensures Underway(ops, acts, 0, ops, 0, was, was)
  {
    assert acts[0..] == acts;
  }

  lemma UnderwayEnd(
    co: Coroutine, ops0: nat, acts: seq<Act>, ops: nat, made: nat, was: Moment, now: Moment)
    requires Underway(ops0, acts, |acts|, ops, made, was, now)
    ensures Outcome(ops0, acts) == (made, Returned) && Stopped(co, Outcome(ops0, acts), was, now)
  {
    OutcomeEnd(ops);
  }

  lemma OutcomeEnd(ops: nat)
    ensures Outcome(ops, []) == (0, Returned)
  {
  }

  /** The outcome of a list of acts is that of the first, unless that one goes on. */
  lemma OutcomeAt(ops: nat, acts: seq<Act>, i: nat)
    requires i < |acts|
    ensures var (a, rest) := (acts[i], Outcome(if acts[i].Renice? then ops + 1 else ops, acts[i + 1..]));
      Outcome(ops, acts[i..]) == if Stops(ops, a) then (0, EndingOf(a)) else (Born(a) + rest.0, rest.1)
  {
    assert acts[i..][1..] == acts[i + 1..];
  }

  /** The act gives up the processor. */
  predicate Stops(ops: nat, a: Act) {
    a.Pause? || a.Poll? || (a.Renice? && ops + 1 >= 5)
  }

  function EndingOf(a: Act): Ending {
    if a.Poll? then Polling(a.fd, a.out) else Requeued
  }

  function Born(a: Act): nat {
    if a.Create? then 1 else 0
  }

  /** A body that would start to wait for a registered descriptor is taken to return instead. */
  function Chosen(acts: seq<Act>, registered: set<int>): (r: seq<Act>)
    ensures (forall i :: 0 <= i < |acts| && acts[i].Poll? ==> acts[i].fd !in registered) ==> r == acts
  {
    if Avoids(acts, registered) then acts else []
  }

  /** `co`, which is no longer in `was`, has done the acts up to the first that gives up the processor. */
  predicate Turned(co: Coroutine, acts: seq<Act>, was: Moment, now: Moment) {
    Stopped(co, Outcome(0, Chosen(acts, was.waiting.Keys)), was, now)
  }

  /** The moment before the `k`-th of a row of turns that begins with the moment `start`. */
  function Before(start: Moment, moments: seq<Moment>, base: nat, k: nat): Moment {
    if k == 0 || base + k > |moments| then start else moments[base + k - 1]
  }

  /** The first of the queue at the moment before has done its acts; the moments of the pass begin at `base`. */
  predicate QueueTurn(
    queue: seq<Coroutine>, bursts: nat -> seq<Act>, start: Moment, moments: seq<Moment>, base: nat, k: nat)
  {
    && k < |queue| && base + k < |moments|
    && var prev := Before(start, moments, base, k);
    && prev.ready != [] && prev.ready[0] == queue[k]
    && Turned(queue[k], bursts(k), Moment(prev.ready[1..], prev.waiting), moments[base + k])
  }

  /** Who waited for the descriptor at the moment before has done its acts; the last event comes first. */
  predicate EventTurn(
    events: seq<Event>, replies: nat -> seq<Act>, start: Moment, moments: seq<Moment>, base: nat, i: nat)
  {
    && i < |events| && base + |events| - 1 - i < |moments|
    && var j := |events| - 1 - i;
    var prev := Before(start, moments, base, j);
    var fd := events[i].fd;
    && fd in prev.waiting
    && Turned(prev.waiting[fd], replies(i), Moment(prev.ready, prev.waiting - {fd}), moments[base + j])
  }

  /** The bodies and the replies of one round of the world. */
  function Bursts(w: World, p: nat): nat -> seq<Act> {
    (i: nat) => w.bursts(p, i)
  }

  function Replies(w: World, p: nat): nat -> seq<Act> {
    (i: nat) => w.replies(p, i)
  }

  /** One round of the loop: who was queued, where its moments begin, and which events were delivered. */
  datatype Round = Round(start: Moment, base: nat, events: seq<Event>)

  /** Where the moments of the next round begin. */
  function NextBase(r: Round): nat {
    r.base + |r.start.ready| + |r.events|
  }

  /** What the world decides about round `p` is what happened in it. */
  predicate Played(r: Round, w: World, p: nat, moments: seq<Moment>) {
    var n := r.base + |r.start.ready|;
    var asked := Before(r.start, moments, r.base, |r.start.ready|);
    && n + |r.events| <= |moments|
    && QueueTurns(r.start.ready, Bursts(w, p), r.start, moments, r.base)
    && r.events == (if asked.ready == [] && Deliverable(w.events(p), asked.waiting.Keys) then w.events(p) else [])
    && EventTurns(r.events, Replies(w, p), asked, moments, n)
  }

  /** Round `p` begins where the one before it ended. */
  predicate Follows(rounds: seq<Round>, start: Moment, base: nat, moments: seq<Moment>, p: nat) {
    && p < |rounds| && rounds[p].base >= base
    && rounds[p].base == (if p == 0 then base else NextBase(rounds[p - 1]))
    && rounds[p].start == Before(start, moments, base, rounds[p].base - base)
  }

  /** From the moment `start` to the moment `end` the rounds follow each other, and are what the world decides. */
  predicate PlayedAll(rounds: seq<Round>, w: World, start: Moment, base: nat, moments: seq<Moment>, end: Moment) {
    && (forall p :: 0 <= p < |rounds| ==> Played(rounds[p], w, p, moments))
    && (forall p :: 0 <= p < |rounds| ==> Follows(rounds, start, base, moments, p))
    && |moments| == (if rounds == [] then base else NextBase(rounds[|rounds| - 1]))
    && |moments| >= base && end == Before(start, moments, base, |moments| - base)
  }

  lemma PlayedKept(r: Round, w: World, p: nat, moments: seq<Moment>, more: seq<Moment>)
    requires Played(r, w, p, moments) && moments <= more
    ensures Played(r, w, p, more) && r.base <= |moments|
  {
    hide QueueTurns, EventTurns;
    var n := |r.start.ready|;
    TurnsKept(r.start.ready, Bursts(w, p), r.start, moments, more, r.base);
    EventsKept(r.events, Replies(w, p), Before(r.start, moments, r.base, n), moments, more, r.base + n);
  }

  lemma FollowsMore(
    rounds: seq<Round>, r: Round, start: Moment, base: nat, moments: seq<Moment>, more: seq<Moment>, p: nat)
    requires Follows(rounds, start, base, moments, p) && moments <= more && rounds[p].base <= |moments|
    ensures Follows(rounds + [r], start, base, more, p)
  {
    assert (rounds + [r])[p] == rounds[p];
    assert p > 0 ==> (rounds + [r])[p - 1] == rounds[p - 1];
  }

  /** One more round. */
  lemma PlayedMore(
    rounds: seq<Round>, w: World, start: Moment, base: nat, moments: seq<Moment>, mid: Moment,
    more: seq<Moment>, end: Moment, r: Round)
    requires PlayedAll(rounds, w, start, base, moments, mid) && moments <= more
    requires r.start == mid && r.base == |moments| && Played(r, w, |rounds|, more)
    requires |more| == NextBase(r) && end == Before(mid, more, |moments|, |more| - |moments|)
    ensures PlayedAll(rounds + [r], w, start, base, more, end)
  {
    hide Played;
    var all := rounds + [r];
    forall p | 0 <= p < |all| ensures Played(all[p], w, p, more) && Follows(all, start, base, more, p) {
      if p < |rounds| {
        assert all[p] == rounds[p] && Follows(rounds, start, base, moments, p);
        PlayedKept(rounds[p], w, p, moments, more);
        FollowsMore(rounds, r, start, base, moments, more, p);
      }
    }
  }

  /** Everybody in the queue has had his turn, in order. */
  predicate QueueTurns(
    queue: seq<Coroutine>, bursts: nat -> seq<Act>, start: Moment, moments: seq<Moment>, base: nat)
  {
    forall k :: 0 <= k < |queue| ==> QueueTurn(queue, bursts, start, moments, base, k)
  }

  /** Every event has given its waiter a turn, the last event first. */
  predicate EventTurns(
    events: seq<Event>, replies: nat -> seq<Act>, start: Moment, moments: seq<Moment>, base: nat)
  {
    forall i :: 0 <= i < |events| ==> EventTurn(events, replies, start, moments, base, i)
  }

  lemma EventsKept(
    events: seq<Event>, replies: nat -> seq<Act>, start: Moment, moments: seq<Moment>, more: seq<Moment>, base: nat)
    requires base + |events| <= |moments| && moments <= more && EventTurns(events, replies, start, moments, base)
    ensures EventTurns(events, replies, start, more, base)
  {
    hide Turned;
    forall i | 0 <= i < |events| ensures EventTurn(events, replies, start, more, base, i) {
      assert EventTurn(events, replies, start, moments, base, i);
    }
  }

  lemma TurnsKept(
    queue: seq<Coroutine>, bursts: nat -> seq<Act>, start: Moment, moments: seq<Moment>, more: seq<Moment>, base: nat)
    requires base + |queue| <= |moments| && moments <= more && QueueTurns(queue, bursts, start, moments, base)
    ensures QueueTurns(queue, bursts, start, more, base)
  {
    hide Turned;
    forall k | 0 <= k < |queue| ensures QueueTurn(queue, bursts, start, more, base, k) {
      assert QueueTurn(queue, bursts, start, moments, base, k);
    }
  }

  /** The history of a run so far, with who is queued and who waits at its end. */
  datatype Log = Log(dequeued: seq<Coroutine>, resumed: seq<Coroutine>, moments: seq<Moment>, now: Moment)

  /** From the log `was` to the log `l` the first `n` of `queue` left the ready queue and ran, in order. */
  predicate Ran(queue: seq<Coroutine>, bursts: nat -> seq<Act>, n: nat, was: Log, l: Log) {
    && n <= |queue| && queue[n..] <= l.now.ready
    && l.resumed == was.resumed + queue[..n] && l.dequeued == was.dequeued + queue[..n]
    && was.moments <= l.moments && |l.moments| == |was.moments| + n
    && (if n == 0 then l.now == was.now else l.moments[|l.moments| - 1] == l.now)
    && QueueTurns(queue[..n], bursts, was.now, l.moments, |was.moments|)
    && forall fd :: fd in was.now.waiting ==> fd in l.now.waiting && l.now.waiting[fd] == was.now.waiting[fd]
  }

  lemma LastOf(queue: seq<Coroutine>, n: nat)
    requires Injective(queue) && n < |queue| && queue[n] == queue[|queue| - 1]
    ensures n + 1 == |queue|
  {
  }

  lemma RanNone(queue: seq<Coroutine>, bursts: nat -> seq<Act>, was: Log)
    requires queue == was.now.ready
    ensures Ran(queue, bursts, 0, was, was)
  {
  }

  lemma RanAll(queue: seq<Coroutine>, bursts: nat -> seq<Act>, n: nat, was: Log, l: Log)
    requires Ran(queue, bursts, n, was, l) && (n == |queue| || l.now.ready == [])
    ensures l.resumed == was.resumed + queue && l.dequeued == was.dequeued + queue
    ensures was.moments <= l.moments && |l.moments| == |was.moments| + |queue|
    ensures if queue == [] then l.now == was.now else l.moments[|l.moments| - 1] == l.now
    ensures QueueTurns(queue, bursts, was.now, l.moments, |was.moments|)
    ensures forall fd :: fd in was.now.waiting ==> fd in l.now.waiting && l.now.waiting[fd] == was.now.waiting[fd]
  {
    assert n == |queue| && queue[..n] == queue;
  }

  /** One more has run. */
  lemma RanOne(queue: seq<Coroutine>, bursts: nat -> seq<Act>, n: nat, was: Log, l: Log, l': Log)
    requires Ran(queue, bursts, n, was, l) && n < |queue|
    requires l.now.ready[1..] <= l'.now.ready
    requires l'.resumed == l.resumed + [l.now.ready[0]] && l'.dequeued == l.dequeued + [l.now.ready[0]]
    requires l'.moments == l.moments + [l'.now] && l.now.ready != []
    requires Turned(l.now.ready[0], bursts(n), Moment(l.now.ready[1..], l.now.waiting), l'.now)
    requires forall fd :: fd in l.now.waiting ==> fd in l'.now.waiting && l'.now.waiting[fd] == l.now.waiting[fd]
    ensures l.now.ready[0] == queue[n] && Ran(queue, bursts, n + 1, was, l')
  {
    hide Turned;
    OneMore(was.resumed, queue, n, l.now.ready, l'.now.ready);
    OneMore(was.dequeued, queue, n, l.now.ready, l'.now.ready);
    var front := queue[..n + 1];
    forall k | 0 <= k < |front| ensures QueueTurn(front, bursts, was.now, l'.moments, |was.moments|, k) {
      assert k < n ==> QueueTurn(queue[..n], bursts, was.now, l.moments, |was.moments|, k);
    }
  }

  /** The rest of `s` from place `n` leads a queue; its first leaves the queue, and a log grows by it. */
  lemma OneMore<T>(log: seq<T>, s: seq<T>, n: nat, was: seq<T>, now: seq<T>)
    requires n < |s| && s[n..] <= was && was[1..] <= now
    ensures s[n + 1..] <= now && was[0] == s[n] && log + s[..n] + [was[0]] == log + s[..n + 1]
  {
    assert was[0] == s[n..][0];
    assert s[n + 1..] == s[n..][1..] <= was[1..];
    Reassociated(log, s[..n], [s[n]]);
  }

  /** From the log `was` to the log `l` the events from place `num` on have resumed who waited for them, last first. */
  predicate Answered(events: seq<Event>, replies: nat -> seq<Act>, num: nat, was: Log, l: Log) {
    && (forall i, j :: 0 <= i < j < |events| ==> events[i].fd != events[j].fd)
    && num <= |events| && l.dequeued == was.dequeued && was.now.ready <= l.now.ready
    && was.resumed <= l.resumed && |l.resumed| == |was.resumed| + |events| - num
    && was.moments <= l.moments && |l.moments| == |was.moments| + |events| - num
    && (if num == |events| then l.now == was.now else l.moments[|l.moments| - 1] == l.now)
    && (forall i :: num <= i < |events| ==> EventTurn(events, replies, was.now, l.moments, |was.moments|, i))
    && (forall i :: 0 <= i < |events| ==> events[i].fd in was.now.waiting)
    && (forall i :: 0 <= i < num ==>
      events[i].fd in l.now.waiting && l.now.waiting[events[i].fd] == was.now.waiting[events[i].fd])
    && forall i :: num <= i < |events| ==>
      l.resumed[|was.resumed| + |events| - 1 - i] == was.now.waiting[events[i].fd]
  }

  lemma AnsweredNone(events: seq<Event>, replies: nat -> seq<Act>, was: Log)
    requires Deliverable(events, was.now.waiting.Keys)
    ensures Answered(events, replies, |events|, was, was)
  {
  }

  lemma AnsweredHere(events: seq<Event>, replies: nat -> seq<Act>, num: nat, was: Log, l: Log)
    requires num < |events| && Answered(events, replies, num + 1, was, l)
    ensures var fd := events[num].fd;
      fd in l.now.waiting && fd in was.now.waiting && l.now.waiting[fd] == was.now.waiting[fd]
  {
  }

  /** One more event has resumed its waiter. */
  lemma AnsweredOne(events: seq<Event>, replies: nat -> seq<Act>, num: nat, was: Log, l: Log, l': Log)
    requires num < |events| && Answered(events, replies, num + 1, was, l) && l'.dequeued == l.dequeued
    requires var fd := events[num].fd;
      fd in l.now.waiting
      && Turned(l.now.waiting[fd], replies(num), Moment(l.now.ready, l.now.waiting - {fd}), l'.now)
    requires events[num].fd in l.now.waiting && l'.resumed == l.resumed + [l.now.waiting[events[num].fd]]
    requires l'.moments == l.moments + [l'.now] && l.now.ready <= l'.now.ready
    requires forall fd :: fd in l.now.waiting && fd != events[num].fd ==>
      fd in l'.now.waiting && l'.now.waiting[fd] == l.now.waiting[fd]
    ensures Answered(events, replies, num, was, l')
  {
    hide Turned;
    AnsweredHere(events, replies, num, was, l);
    forall i | num <= i < |events| ensures EventTurn(events, replies, was.now, l'.moments, |was.moments|, i) {
      assert num < i ==> EventTurn(events, replies, was.now, l.moments, |was.moments|, i);
    }
  }

  lemma AnsweredAll(events: seq<Event>, replies: nat -> seq<Act>, was: Log, l: Log)
    requires Answered(events, replies, 0, was, l)
    ensures EventTurns(events, replies, was.now, l.moments, |was.moments|)
    ensures l.now == Before(was.now, l.moments, |was.moments|, |events|)
    ensures l.dequeued == was.dequeued && was.now.ready <= l.now.ready
    ensures was.resumed <= l.resumed && |l.resumed| == |was.resumed| + |events|
    ensures was.moments <= l.moments && |l.moments| == |was.moments| + |events|
    ensures forall i :: 0 <= i < |events| ==>
      events[i].fd in was.now.waiting && l.resumed[|l.resumed| - 1 - i] == was.now.waiting[events[i].fd]
  {
  }

  /** The acts do not start to wait for any of these descriptors. */
  predicate Avoids(acts: seq<Act>, registered: set<int>) {
    forall i :: 0 <= i < |acts| && acts[i].Poll? ==> acts[i].fd !in registered
  }

  lemma AvoidsAt(acts: seq<Act>, registered: set<int>, i: nat)
    requires Avoids(acts, registered) && i < |acts| && acts[i].Poll?
    ensures acts[i].fd !in registered
  {
  }

  class Scheduler {
    /** The ready queue and the wait tree. */
    const at: Places<Coroutine>
    var poller: set<int>
    var spawned: int
    var curr: Coroutine?
    ghost var alive: set<Coroutine>
    ghost var enqueued: seq<Coroutine>
    ghost var dequeued: seq<Coroutine>
    ghost var resumed: seq<Coroutine>
    ghost var moments: seq<Moment>
    ghost var passes: nat

    /** The counter, the log and the poller agree with who is alive, ready and waiting. */
    ghost predicate Counted()
      reads `spawned, `alive, `poller, `enqueued, `dequeued, at`links, at`ready, at`waiting
    {
      && spawned == |alive| && alive <= at.links.Keys
      && enqueued == dequeued + at.ready && poller == at.waiting.Keys
    }

    /** Everybody in `live` but those in `aside` is in the ready queue, once, or waits for one descriptor. */
    static ghost predicate InPlace(
      ready: seq<Coroutine>, waiting: map<int, Coroutine>, live: set<Coroutine>, aside: set<Coroutine>)
      reads live`status, live`polling, live`fd, live`ops
    {
      && Injective(ready)
      && (forall co :: co in ready ==>
        co in live && co !in aside && !co.polling && Clean(co.status) && co.ops == 0)
      && (forall fd :: fd in waiting ==>
        && waiting[fd] in live && waiting[fd] !in aside && waiting[fd] !in ready
        && waiting[fd].polling && waiting[fd].fd == fd && Exited !in waiting[fd].status && waiting[fd].ops == 0)
      && aside <= live
      && (forall co :: co in live && co !in aside ==> co in ready || (co.fd in waiting && waiting[co.fd] == co))
    }

    ghost predicate Placed(aside: set<Coroutine>)
      reads `poller, `spawned, `alive, `enqueued, `dequeued, alive`status, alive`polling, alive`fd
      reads alive`ops
      reads at, at.queue, at.queue.entries, at.tree, at.tree.nodes, at.tree.order
    {
      at.Valid() && Counted() && InPlace(at.ready, at.waiting, alive, aside)
    }

    /** Between two resumes. */
    ghost predicate Idle()
      reads this, alive, at, at.queue, at.queue.entries, at.tree, at.tree.nodes, at.tree.order
    {
      curr == null && Placed({})
    }

    constructor Create()
      ensures Idle() && alive == {} && at.ready == [] && at.waiting == map[]
    {
      at := new Places<Coroutine>.Create();
      poller, spawned, curr := {}, 0, null;
      alive, enqueued, dequeued, resumed, moments, passes := {}, [], [], [], [], 0;
    }

    ghost function Now(): Moment
      reads at`ready, at`waiting
    {
      Moment(at.ready, at.waiting)
    }

    /** Who is queued and who waits, but for the coroutine itself. */
    ghost function NowWithout(co: Coroutine): Moment
      reads at`ready, at`waiting, co`polling, co`fd
    {
      Moment(at.ready, if co.polling then at.waiting - {co.fd} else at.waiting)
    }

    function IsDone(): bool
      reads this, at.queue, at.tree
    {
      at.NoneWaits() && at.NoneReady()
    }

    /** The coroutine waits for the descriptor it polls. */
    ghost predicate Waits(co: Coroutine)
      reads at, co
    {
      co.fd in at.waiting && at.waiting[co.fd] == co
    }

    /** The loop ends between two passes exactly when no coroutine is alive. */
    lemma DoneWhenNoneAlive()
      requires Idle()
      ensures IsDone() <==> alive == {}
      ensures IsDone() <==> spawned == 0
    {
      at.Empties();
      assert at.ready != [] ==> at.ready[0] in alive;
      assert forall fd :: fd in at.waiting ==> at.waiting[fd] in alive;
      assert at.waiting.Keys == {} ==> at.waiting == map[];
    }

    /** A live coroutine stands once in the ready queue or waits for one descriptor, but not both. */
    lemma OnePlace(co: Coroutine)
      requires Idle() && co in alive
      ensures co in at.ready <==> !Waits(co)
      ensures forall fd :: fd in at.waiting && at.waiting[fd] == co ==> fd == co.fd
      ensures forall i, j :: 0 <= i < j < |at.ready| ==> !(at.ready[i] == co == at.ready[j])
    {
      assert forall fd :: fd in at.waiting ==> at.waiting[fd] !in at.ready;
    }

    /** A new coroutine gets its link and its node. */
    method Equip(co: Coroutine, ghost aside: set<Coroutine>)
      requires Placed(aside) && co !in at.links
      modifies at`links, at`nodes, at`ofLink, at`ofNode, at`entries, at`elms
      ensures Placed(aside) && co in at.links
      ensures forall e :: e in at.entries && e !in old(at.entries) ==> fresh(e)
      ensures forall e :: e in at.elms && e !in old(at.elms) ==> fresh(e)
    {
      hide Places.Valid, InPlace;
      at.Add(co);
    }

    /** A new coroutine is counted, and is in no place yet. */
    method Enlist(co: Coroutine, ghost aside: set<Coroutine>)
      requires Placed(aside) && co !in alive && co in at.links
      modifies this`spawned, this`alive
      ensures Placed(aside + {co}) && alive == old(alive) + {co}
    {
      hide Places.Valid, InPlace;
      JoinsAside(at.ready, at.waiting, alive, aside, co);
      spawned := spawned + 1;
      alive := alive + {co};
    }

    static lemma JoinsAside(
      ready: seq<Coroutine>, waiting: map<int, Coroutine>, live: set<Coroutine>, aside: set<Coroutine>, co: Coroutine)
      requires InPlace(ready, waiting, live, aside) && co !in live
      ensures InPlace(ready, waiting, live + {co}, aside + {co})
    {
    }

    /** A coroutine that is in no place joins the end of the ready queue. */
    method Enqueue(co: Coroutine, ghost aside: set<Coroutine>)
      requires Placed(aside + {co}) && co !in aside && !co.polling && Clean(co.status) && co.ops == 0
      modifies at`ready, at.queue, at.entries, this`enqueued
      ensures Placed(aside) && at.ready == old(at.ready) + [co]
    {
      hide Places.Valid, InPlace, Clean;
      JoinsReady(at.ready, at.waiting, alive, aside, co);
      at.Push(co);
      enqueued := enqueued + [co];
    }

    /** nty_coroutine_create: the new coroutine joins the ready queue. */
    method Spawn(ghost aside: set<Coroutine>) returns (co: Coroutine)
      requires Placed(aside)
      modifies this`spawned, this`alive, this`enqueued, at, at.queue, at.entries
      ensures Placed(aside) && fresh(co) && alive == old(alive) + {co}
      ensures at.ready == old(at.ready) + [co] && at.waiting == old(at.waiting)
      ensures forall e :: e in at.entries && e !in old(at.entries) ==> fresh(e)
      ensures forall e :: e in at.elms && e !in old(at.elms) ==> fresh(e)
    {
      hide Places.Valid, Placed, InPlace, Counted;
      co := new Coroutine.Spawn();
      Equip(co, aside);
      Enlist(co, aside);
      Enqueue(co, aside);
    }

    /** nty_schedule_search_wait: an event finds its waiter. */
    method SearchWait(fd: int, ghost waiter: Coroutine) returns (co: Coroutine)
      requires Placed({}) && fd in at.waiting && waiter == at.waiting[fd]
      modifies waiter`status
      ensures Placed({}) && co == waiter && co.status == {} && co.polling
    {
      hide Places.Valid;
      co := at.Find(fd);
      co.status := {};
    }

    /**
     nty_poll_inner after the yield: the descriptor is deregistered and nty_schedule_desched_wait takes the
     waiter out of the wait tree.  Its part for sleeping coroutines does nothing, because the status is
     cleared before it is tested.
     */
    method DeschedWait(fd: int, ghost waiter: Coroutine) returns (co: Coroutine)
      requires Placed({}) && fd in at.waiting && waiter == at.waiting[fd]
      modifies at`waiting, at.tree, at.elms, this`poller, waiter`status, waiter`polling
      ensures co == waiter && at.waiting == old(at.waiting) - {fd} && co.status == {} && !co.polling
      ensures poller == old(poller) - {fd} && Placed({co})
    {
      hide Places.Valid, InPlace;
      LeavesWaiting(at.ready, at.waiting, alive, fd);
      poller := poller - {fd};
      co := at.Unfile(fd);
      Unmark(co);
    }

    /** nty_schedule_desched_wait, as far as the coroutine itself is concerned. */
    method Unmark(co: Coroutine)
      requires Placed({co})
      modifies co`status, co`polling
      ensures Placed({co}) && co.status == {} && !co.polling
    {
      hide Places.Valid;
      co.status := {};
      co.polling := false;
    }

    /** nty_schedule_sched_wait, as far as the coroutine itself is concerned. */
    method MarkWaiting(co: Coroutine, fd: int, out: bool)
      requires Placed({co}) && Clean(co.status)
      modifies co
      ensures Placed({co}) && co.fd == fd && co.polling && Exited !in co.status && co.ops == 0
      ensures co.status == old(co.status) + if out then {WaitRead} else {}
    {
      hide Places.Valid;
      if WaitRead in co.status || WaitWrite in co.status {
        assert false;
      }
      // The program adds the bit number, not the bit: 0 for reading adds nothing, 1 for writing adds bit 0.
      if out {
        co.status := co.status + {WaitRead};
      }
      co.fd := fd;
      co.polling := true;
      co.ops := 0;
    }

    /**
     nty_poll_inner up to the yield: the descriptor is registered, and nty_schedule_sched_wait with timeout 1
     files the waiter.
     */
    method SchedWait(co: Coroutine, fd: int, out: bool)
      requires Placed({co}) && fd !in poller && Clean(co.status)
      modifies at`waiting, at.tree, at.elms, this`poller, co
      ensures Placed({}) && at.waiting == old(at.waiting)[fd := co] && co.fd == fd && co.polling
      ensures poller == old(poller) + {fd} && fd !in old(at.waiting) && Exited !in co.status && co.ops == 0
      ensures co.status == old(co.status) + if out then {WaitRead} else {}
    {
      hide Places.Valid, InPlace;
      MarkWaiting(co, fd, out);
      JoinsWaiting(at.ready, at.waiting, alive, co);
      poller := poller + {fd};
      at.File(co, fd);
    }

    static lemma JoinsWaiting(ready: seq<Coroutine>, waiting: map<int, Coroutine>, live: set<Coroutine>, co: Coroutine)
      requires InPlace(ready, waiting, live, {co}) && co.fd !in waiting
      requires co.polling && Exited !in co.status && co.ops == 0
      ensures co in live && co !in waiting.Values && InPlace(ready, waiting[co.fd := co], live, {})
    {
      assert co in {co};
      assert forall fd :: fd in waiting ==> waiting[fd] != co;
      var w := waiting[co.fd := co];
      forall c | c in live ensures c in ready || (c.fd in w && w[c.fd] == c) {
        assert c == co || c !in {co};
      }
    }

    static lemma LeavesWaiting(ready: seq<Coroutine>, waiting: map<int, Coroutine>, live: set<Coroutine>, fd: int)
      requires InPlace(ready, waiting, live, {}) && fd in waiting
      ensures waiting[fd] in live && InPlace(ready, waiting - {fd}, live, {waiting[fd]})
    {
      var co, w := waiting[fd], waiting - {fd};
      forall d | d in w ensures w[d] != co {
        assert waiting[d].fd == d;
      }
      forall c | c in live && c !in {co} ensures c in ready || (c.fd in w && w[c.fd] == c) {
        assert c.fd in waiting && waiting[c.fd] == c ==> c.fd != fd;
      }
    }

    static lemma JoinsReady(
      ready: seq<Coroutine>, waiting: map<int, Coroutine>, live: set<Coroutine>, aside: set<Coroutine>, co: Coroutine)
      requires InPlace(ready, waiting, live, aside + {co}) && co !in aside
      requires !co.polling && Clean(co.status) && co.ops == 0
      ensures co in live && co !in ready && InPlace(ready + [co], waiting, live, aside)
    {
      assert co in aside + {co};
      assert forall c :: c in live && c !in aside ==> c == co || c !in aside + {co};
    }

    /** The coroutine that runs joins the ready queue and gives up the processor. */
    method YieldReady(co: Coroutine)
      requires Placed({co}) && !co.polling && Clean(co.status)
      modifies at`ready, at.queue, at.entries, this`enqueued, co`ops
      ensures Placed({}) && at.ready == old(at.ready) + [co] && co.ops == 0
    {
      hide Places.Valid, Placed, InPlace, Counted;
      assert {} + {co} == {co};
      SetOps(co, 0);
      Enqueue(co, {});
    }

    /** The calls to renice since the last yield. */
    method SetOps(co: Coroutine, ops: nat)
      requires Placed({co})
      modifies co`ops
      ensures Placed({co}) && co.ops == ops
    {
      hide Places.Valid;
      co.ops := ops;
    }

    /** The end of _exec. */
    method Exit(co: Coroutine)
      requires Placed({co})
      modifies co`status, co`ops
      ensures Placed({co}) && co.status == old(co.status) + {Exited, Fdeof, Detach} && co.ops == 0
    {
      hide Places.Valid;
      co.status := co.status + {Exited, Fdeof, Detach};
      co.ops := 0;
    }

    /** One act of a body. */
    method Perform(co: Coroutine, act: Act) returns (stop: bool)
      requires Placed({co}) && co in alive && !co.polling && Clean(co.status) && (act.Poll? ==> act.fd !in poller)
      requires New !in co.status
      modifies this`poller, this`spawned, this`alive, this`enqueued, co
      modifies at, at.queue, at.tree, at.entries, at.elms
      ensures co in alive && |alive| == |old(alive)| + Born(act)
      ensures forall c :: c in alive && c !in old(alive) ==> fresh(c)
      ensures forall e :: e in at.entries && e !in old(at.entries) ==> fresh(e)
      ensures forall e :: e in at.elms && e !in old(at.elms) ==> fresh(e)
      ensures stop == Stops(old(co.ops), act)
      ensures act.Create? ==>
        && !stop && old(at.ready) < at.ready && |at.ready| == |old(at.ready)| + 1
        && fresh(at.ready[|at.ready| - 1]) && alive == old(alive) + {at.ready[|at.ready| - 1]}
      ensures act.Pause? ==> stop && at.ready == old(at.ready) + [co] && alive == old(alive)
      ensures act.Renice? ==>
        && (stop <==> old(co.ops) + 1 >= 5) && alive == old(alive)
        && at.ready == (if stop then old(at.ready) + [co] else old(at.ready))
      ensures act.Poll? ==> stop && at.ready == old(at.ready) && at.waiting == old(at.waiting)[act.fd := co]
      ensures !act.Poll? ==> at.waiting == old(at.waiting)
      ensures (stop ==> co.ops == 0) && New !in co.status
      ensures stop ==>
        Placed({}) && Exited !in co.status && Stopped(co, (0, EndingOf(act)), old(Now()), Now())
      ensures !stop ==>
        && Placed({co}) && !co.polling && Clean(co.status) && poller == old(poller)
        && co.ops == (if act.Renice? then old(co.ops) + 1 else old(co.ops)) && Grown(Born(act), old(Now()), Now())
    {
      hide Places.Valid, Placed, InPlace, Counted;
      match act {
      case Create =>
        var child := Spawn({co});
        stop := false;
      case Renice =>
        SetOps(co, co.ops + 1);
        stop := co.ops >= 5;
        if stop {
          YieldReady(co);
        }
      case Pause =>
        YieldReady(co);
        stop := true;
      case Poll(fd, out) =>
        SchedWait(co, fd, out);
        stop := true;
      }
    }

    /** The act at place `i`. */
    method Advance(co: Coroutine, acts: seq<Act>, i: nat, ghost ops: nat, ghost made: nat, ghost was: Moment)
      returns (stop: bool, ghost made': nat)
      requires Placed({co}) && co in alive && !co.polling && Clean(co.status) && New !in co.status
      requires i < |acts| && Avoids(acts, poller) && Underway(ops, acts, i, co.ops, made, was, Now())
      modifies this`poller, this`spawned, this`alive, this`enqueued, co
      modifies at, at.queue, at.tree, at.entries, at.elms
      ensures co in alive && |alive| == |old(alive)| + made' - made && made <= made' && New !in co.status
      ensures forall c :: c in alive && c !in old(alive) ==> fresh(c)
      ensures forall e :: e in at.entries && e !in old(at.entries) ==> fresh(e)
      ensures forall e :: e in at.elms && e !in old(at.elms) ==> fresh(e)
      ensures |old(at.ready)| <= |at.ready|
      ensures forall k :: 0 <= k < |old(at.ready)| ==> at.ready[k] == old(at.ready)[k]
      ensures forall k :: |old(at.ready)| <= k < |at.ready| ==> fresh(at.ready[k]) || (stop && at.ready[k] == co)
      ensures stop ==>
        && Placed({}) && Exited !in co.status && co.ops == 0
        && Outcome(ops, acts).0 == made' && Outcome(ops, acts).1 != Returned
        && Stopped(co, Outcome(ops, acts), was, Now())
      ensures !stop ==>
        && Placed({co}) && !co.polling && Clean(co.status) && poller == old(poller)
        && Underway(ops, acts, i + 1, co.ops, made', was, Now())
    {
      hide Places.Valid, Placed, InPlace, Counted, Outcome, Clean, Stopped, Grown, Avoids;
      OutcomeAt(co.ops, acts, i);
      if acts[i].Poll? {
        AvoidsAt(acts, poller, i);
      }
      ghost var mid := Now();
      stop := Perform(co, acts[i]);
      made' := made + Born(acts[i]);
      if stop {
        GrownStopped(co, made, (0, EndingOf(acts[i])), was, mid, Now());
      } else {
        GrownMore(made, Born(acts[i]), was, mid, Now());
      }
    }

    /** The acts of a body, one after the other, up to the first that gives up the processor. */
    method PerformAll(co: Coroutine, acts: seq<Act>)
      requires curr == co && Placed({co}) && co in alive && !co.polling && Clean(co.status) && New !in co.status
      requires Avoids(acts, poller)
      modifies this`poller, this`spawned, this`alive, this`enqueued, co
      modifies at, at.queue, at.tree, at.entries, at.elms
      ensures co in alive
      ensures forall c :: c in alive && c !in old(alive) ==> fresh(c)
      ensures forall e :: e in at.entries && e !in old(at.entries) ==> fresh(e)
      ensures forall e :: e in at.elms && e !in old(at.elms) ==> fresh(e)
      ensures var o := Outcome(old(co.ops), acts);
        && |alive| == |old(alive)| + o.0
        && Stopped(co, o, old(Now()), Now())
        && (o.1 == Returned <==> Exited in co.status)
        && if o.1 == Returned then Placed({co}) && Detach in co.status && Fdeof in co.status else Placed({})
      ensures forall i :: |old(at.ready)| <= i < |at.ready| ==> at.ready[i] == co || fresh(at.ready[i])
      ensures co.ops == 0 && New !in co.status
    {
      hide Places.Valid, Placed, InPlace, Counted, Outcome, Clean, Stopped, Avoids, Underway;
      ghost var made: nat, was := 0, Now();
      UnderwayStart(co.ops, acts, was);
      var i := 0;
      while i < |acts|
        invariant 0 <= i <= |acts| && Placed({co}) && !co.polling && Clean(co.status) && poller == old(poller)
        invariant co in alive && |alive| == |old(alive)| + made && New !in co.status
        invariant forall c :: c in alive && c !in old(alive) ==> fresh(c)
        invariant forall e :: e in at.entries && e !in old(at.entries) ==> fresh(e)
        invariant forall e :: e in at.elms && e !in old(at.elms) ==> fresh(e)
        invariant |old(at.ready)| <= |at.ready|
        invariant forall k :: |old(at.ready)| <= k < |at.ready| ==> fresh(at.ready[k])
        invariant Underway(old(co.ops), acts, i, co.ops, made, was, Now())
      {
        var stop;
        stop, made := Advance(co, acts, i, old(co.ops), made, was);
        if stop {
          return;
        }
        i := i + 1;
      }
      UnderwayEnd(co, old(co.ops), acts, co.ops, made, was, Now());
      Exit(co);
    }

    /** What a resume does up to the next point where the coroutine gives up the processor or ends. */
    method Body(co: Coroutine, acts: seq<Act>)
      requires curr == co && Placed({co}) && co in alive && !co.polling && Clean(co.status) && New !in co.status
      requires Avoids(acts, poller)
      modifies this`poller, this`spawned, this`alive, this`enqueued, co
      modifies at, at.queue, at.tree, at.entries, at.elms
      ensures co in alive
      ensures forall c :: c in alive && c !in old(alive) ==> fresh(c)
      ensures forall e :: e in at.entries && e !in old(at.entries) ==> fresh(e)
      ensures forall e :: e in at.elms && e !in old(at.elms) ==> fresh(e)
      ensures var o := Outcome(old(co.ops), acts);
        && |alive| == |old(alive)| + o.0
        && Stopped(co, o, old(Now()), Now())
        && (o.1 == Returned <==> Exited in co.status)
        && if o.1 == Returned then Placed({co}) && Detach in co.status && Fdeof in co.status else Placed({})
      ensures forall i :: |old(at.ready)| <= i < |at.ready| ==> at.ready[i] == co || fresh(at.ready[i])
      ensures forall n :: 0 <= n < |acts| && acts[n].Pause? && (forall j :: 0 <= j < n ==> acts[j].Create?) ==>
        && old(at.ready) <= at.ready && |at.ready| == |old(at.ready)| + n + 1 && at.ready[|at.ready| - 1] == co
        && at.waiting == old(at.waiting) && |alive| == |old(alive)| + n
      ensures co.ops == 0 && New !in co.status
    {
      hide Places.Valid, Placed, InPlace, Counted, Outcome, Clean, Stopped, Avoids;
      PerformAll(co, acts);
      PausedAny(co, old(co.ops), acts, old(Now()), Now());
    }

    /** nty_coroutine_init, as far as the status word is concerned. */
    method Init(co: Coroutine)
      requires Placed({co})
      modifies co`status
      ensures Placed({co}) && co.status == {Ready} && Clean(co.status)
    {
      hide Places.Valid;
      co.status := {Ready};
    }

    /** nty_coroutine_free */
    method Free(co: Coroutine)
      requires Placed({co})
      modifies this`spawned, this`alive
      ensures Placed({}) && alive == old(alive) - {co}
    {
      hide Places.Valid;
      spawned := spawned - 1;
      alive := alive - {co};
    }

    /** The descriptors that a coroutine may start to wait for when it is resumed. */
    ghost predicate Allowed(co: Coroutine, acts: seq<Act>)
      reads this, co
    {
      Avoids(acts, Others(co))
    }

    /** The descriptors that are registered for other coroutines. */
    function Others(co: Coroutine): set<int>
      reads this, co
    {
      if co.polling then poller - {co.fd} else poller
    }

    /** nty_poll_inner after the yield: a waiter that runs again leaves the tree. */
    method Wake(co: Coroutine)
      requires co in alive
      requires if co.polling then Placed({}) && Waits(co) else Placed({co}) && Clean(co.status)
      modifies at`waiting, at.tree, at.elms, this`poller, co`status, co`polling
      ensures Placed({co}) && !co.polling && Clean(co.status) && co.status <= old(co.status)
      ensures Now() == old(NowWithout(co)) && co.fd == old(co.fd) && co.ops == old(co.ops)
      ensures poller == old(Others(co))
    {
      hide Places.Valid, Placed, InPlace, Counted;
      if co.polling {
        var waiter := DeschedWait(co.fd, co);
      }
    }

    /** The part of a resume that runs the body. */
    method Switch(co: Coroutine, acts: seq<Act>)
      requires curr == null && co in alive && Allowed(co, acts)
      requires if co.polling then Placed({}) && Waits(co) && New !in co.status else Placed({co}) && Clean(co.status)
      modifies this`poller, this`spawned, this`alive, this`enqueued, this`curr, this`resumed, co
      modifies at, at.queue, at.tree, at.entries, at.elms
      ensures curr == null && co in alive
      ensures forall c :: c in alive && c !in old(alive) ==> fresh(c)
      ensures forall e :: e in at.entries && e !in old(at.entries) ==> fresh(e)
      ensures forall e :: e in at.elms && e !in old(at.elms) ==> fresh(e)
      ensures resumed == old(resumed) + [co]
      ensures var o := Outcome(old(co.ops), acts);
        && |alive| == |old(alive)| + o.0 && Stopped(co, o, old(NowWithout(co)), Now())
        && (o.1 == Returned <==> Exited in co.status)
        && if o.1 == Returned then Placed({co}) && Detach in co.status else Placed({})
      ensures co.ops == 0 && New !in co.status
      ensures forall i :: |old(at.ready)| <= i < |at.ready| ==> at.ready[i] == co || fresh(at.ready[i])
      ensures forall n :: 0 <= n < |acts| && acts[n].Pause? && (forall j :: 0 <= j < n ==> acts[j].Create?) ==>
        && old(at.ready) <= at.ready && |at.ready| == |old(at.ready)| + n + 1 && at.ready[|at.ready| - 1] == co
        && at.waiting == old(NowWithout(co)).waiting && |alive| == |old(alive)| + n
    {
      hide Places.Valid, Places.NoneReady, Placed, InPlace, Counted, Outcome, Clean, Waits, Stopped, Avoids;
      if New in co.status {
        Init(co);
      }
      curr := co;
      resumed := resumed + [co];
      Wake(co);
      Body(co, acts);
      curr := null;
    }

    /** nty_coroutine_resume, of a coroutine taken from the ready queue or of the waiter of an event. */
    method Resume(co: Coroutine, acts: seq<Act>)
      requires curr == null && co in alive && Allowed(co, acts)
      requires if co.polling then Placed({}) && Waits(co) && New !in co.status else Placed({co}) && Clean(co.status)
      modifies this`poller, this`spawned, this`alive, this`enqueued, this`curr, this`resumed, this`moments, co
      modifies at, at.queue, at.tree, at.entries, at.elms
      ensures Idle()
      ensures forall c :: c in alive && c !in old(alive) ==> fresh(c)
      ensures forall e :: e in at.entries && e !in old(at.entries) ==> fresh(e)
      ensures forall e :: e in at.elms && e !in old(at.elms) ==> fresh(e)
      ensures resumed == old(resumed) + [co] && moments == old(moments) + [Now()] && old(at.ready) <= at.ready
      ensures forall fd :: fd in old(at.waiting) && !(old(co.polling) && fd == old(co.fd)) ==>
        fd in at.waiting && at.waiting[fd] == old(at.waiting)[fd]
      ensures var o := Outcome(old(co.ops), acts);
        && |alive| == |old(alive)| + o.0 - (if o.1 == Returned then 1 else 0)
        && (o.1 == Returned <==> co !in alive) && Stopped(co, o, old(NowWithout(co)), Now())
      ensures co.ops == 0 && New !in co.status
      ensures forall i :: |old(at.ready)| <= i < |at.ready| ==> at.ready[i] == co || fresh(at.ready[i])
      ensures forall n :: 0 <= n < |acts| && acts[n].Pause? && (forall j :: 0 <= j < n ==> acts[j].Create?) ==>
        && old(at.ready) <= at.ready && |at.ready| == |old(at.ready)| + n + 1 && at.ready[|at.ready| - 1] == co
        && at.waiting == old(NowWithout(co)).waiting && |alive| == |old(alive)| + n
    {
      hide Places.Valid, Places.NoneReady, Placed, InPlace, Counted, Outcome, Allowed, Waits, Clean, Stopped;
      Switch(co, acts);
      StillWaiting(co, Outcome(old(co.ops), acts), old(NowWithout(co)), Now());
      PausedAny(co, old(co.ops), acts, old(NowWithout(co)), Now());
      if Exited in co.status {
        if Detach in co.status {
          Free(co);
        }
      }
      moments := moments + [Now()];
    }

    /** The acts of a body, when it starts to wait for free descriptors only; otherwise it returns at once. */
    function Permitted(co: Coroutine, acts: seq<Act>): (r: seq<Act>)
      reads this, co
      ensures Allowed(co, r) && (Allowed(co, acts) ==> r == acts)
      ensures (forall i :: 0 <= i < |acts| && acts[i].Poll? ==>
        acts[i].fd !in poller || (co.polling && acts[i].fd == co.fd)) ==> r == acts
    {
      Chosen(acts, Others(co))
    }

    static lemma LeavesReady(ready: seq<Coroutine>, waiting: map<int, Coroutine>, live: set<Coroutine>)
      requires InPlace(ready, waiting, live, {}) && ready != []
      ensures InPlace(ready[1..], waiting, live, {ready[0]})
      ensures ready[0] in live && !ready[0].polling && Clean(ready[0].status) && ready[0].ops == 0
      ensures ready[0] !in ready[1..]
    {
    }

    /** TAILQ_FIRST and TAILQ_REMOVE */
    method Dequeue() returns (co: Coroutine)
      requires Placed({}) && at.ready != []
      modifies at`ready, at.queue, at.entries, this`dequeued
      ensures Placed({co}) && co == old(at.ready)[0] && at.ready == old(at.ready)[1..]
      ensures dequeued == old(dequeued) + [co]
      ensures co in alive && !co.polling && Clean(co.status) && co.ops == 0 && co !in at.ready
    {
      hide Places.Valid;
      LeavesReady(at.ready, at.waiting, alive);
      hide InPlace, Clean;
      co := at.Pop();
      dequeued := dequeued + [co];
    }

    /** The loop over the ready queue frees a coroutine at its end of file; nobody in the queue is. */
    method CheckEof(co: Coroutine)
      requires Clean(co.status)
      ensures Fdeof !in co.status
    {
      if Fdeof in co.status {
        assert false;
      }
    }

    /** The first of the ready queue leaves it and runs. */
    method RunFirst(bursts: nat -> seq<Act>, n: nat) returns (co: Coroutine)
      requires Idle() && at.ready != []
      modifies this, alive
      modifies at, at.queue, at.tree, at.entries, at.elms
      ensures Idle() && passes == old(passes)
      ensures forall c :: c in alive && c !in old(alive) ==> fresh(c)
      ensures forall e :: e in at.entries && e !in old(at.entries) ==> fresh(e)
      ensures forall e :: e in at.elms && e !in old(at.elms) ==> fresh(e)
      ensures co == old(at.ready)[0] && old(at.ready)[1..] <= at.ready
      ensures resumed == old(resumed) + [co] && dequeued == old(dequeued) + [co]
      ensures moments == old(moments) + [Now()]
      ensures Turned(co, bursts(n), Moment(old(at.ready)[1..], old(at.waiting)), Now())
      ensures forall fd :: fd in old(at.waiting) ==> fd in at.waiting && at.waiting[fd] == old(at.waiting)[fd]
    {
      hide Places.Valid, Placed, InPlace, Counted, Outcome, Stopped, Avoids;
      WaitersFound();
      co := Dequeue();
      CheckEof(co);
      Resume(co, Permitted(co, bursts(n)));
    }

    /** The next of `queue` leaves the ready queue and runs. */
    method RunNext(bursts: nat -> seq<Act>, n: nat, ghost queue: seq<Coroutine>, ghost was: Log) returns (co: Coroutine)
      requires Idle() && at.ready != [] && n < |queue| && Ran(queue, bursts, n, was, History())
      modifies this, alive
      modifies at, at.queue, at.tree, at.entries, at.elms
      ensures Idle() && passes == old(passes)
      ensures forall c :: c in alive && c !in old(alive) ==> fresh(c)
      ensures forall e :: e in at.entries && e !in old(at.entries) ==> fresh(e)
      ensures forall e :: e in at.elms && e !in old(at.elms) ==> fresh(e)
      ensures co == queue[n] && Ran(queue, bursts, n + 1, was, History()) && (at.NoneReady() <==> at.ready == [])
    {
      hide Places.Valid, Places.NoneReady, Placed, Outcome, Waits, Ran, Turned, Clean, Allowed, InPlace, Counted;
      ghost var l := History();
      co := RunFirst(bursts, n);
      RanOne(queue, bursts, n, was, l, History());
      QueueOnce();
    }

    /**
     One pass over the ready queue: it resumes exactly the coroutines that were queued when it began, each
     once and in their order.  What is queued meanwhile stays queued, in order, for the next pass.
     */
    method RunReady(bursts: nat -> seq<Act>)
      requires Idle()
      modifies this, alive
      modifies at, at.queue, at.tree, at.entries, at.elms
      ensures Idle() && passes == old(passes)
      ensures forall c :: c in alive && c !in old(alive) ==> fresh(c)
      ensures forall e :: e in at.entries && e !in old(at.entries) ==> fresh(e)
      ensures forall e :: e in at.elms && e !in old(at.elms) ==> fresh(e)
      ensures resumed == old(resumed) + old(at.ready) && dequeued == old(dequeued) + old(at.ready)
      ensures enqueued == old(enqueued) + at.ready
      ensures QueueTurns(old(at.ready), bursts, old(Now()), moments, |old(moments)|)
      ensures old(moments) <= moments && |moments| == |old(moments)| + |old(at.ready)|
      ensures if old(at.ready) == []
        then at.ready == [] && at.waiting == old(at.waiting)
        else moments[|moments| - 1] == Moment(at.ready, at.waiting)
      ensures forall fd :: fd in old(at.waiting) ==> fd in at.waiting && at.waiting[fd] == old(at.waiting)[fd]
    {
      hide Places.Valid, Places.NoneReady, Placed, Outcome, Waits, Ran, Turned, Clean, Allowed, InPlace, Counted;
      hide Injective, QueueTurns;
      QueueOnce();
      ghost var queue, was := at.ready, History();
      RanNone(queue, bursts, was);
      var n := 0;
      var last: Coroutine? := null;
      if !at.NoneReady() {
        last := at.Last();
      }
      while !at.NoneReady()
        invariant at.NoneReady() <==> at.ready == []
        invariant forall c :: c in alive && c !in old(alive) ==> fresh(c)
        invariant forall e :: e in at.entries && e !in old(at.entries) ==> fresh(e)
        invariant forall e :: e in at.elms && e !in old(at.elms) ==> fresh(e)
        invariant Idle() && passes == old(passes) && 0 <= n <= |queue|
        invariant at.ready != [] ==> n < |queue|
        invariant Ran(queue, bursts, n, was, History())
        decreases |queue| - n
      {
        var co := RunNext(bursts, n, queue, was);
        n := n + 1;
        if co == last {
          LastOf(queue, n - 1);
          break;
        }
      }
      RanAll(queue, bursts, n, was, History());
      QueueOnce();
    }

    ghost function History(): Log
      reads `dequeued, `resumed, `moments, at`ready, at`waiting
    {
      Log(dequeued, resumed, moments, Now())
    }

    lemma QueueOnce()
      requires Placed({})
      ensures Injective(at.ready) && enqueued == dequeued + at.ready && (forall co :: co in at.ready ==> co in alive)
      ensures at.Valid() && (at.NoneReady() <==> at.ready == [])
    {
      at.Empties();
    }

    method MarkEof(co: Coroutine)
      requires Placed({}) && Waits(co) && co.polling
      modifies co`status
      ensures Placed({}) && co.status == old(co.status) + {Fdeof}
    {
      hide Places.Valid;
      co.status := co.status + {Fdeof};
    }

    /** nty_schedule_epoll: the poller is asked only while nothing is ready, and reports registered descriptors. */
    method Epoll(reported: seq<Event>) returns (events: seq<Event>)
      ensures events == if at.NoneReady() && Deliverable(reported, poller) then reported else []
    {
      events := if at.NoneReady() && Deliverable(reported, poller) then reported else [];
    }

    /** One event: the coroutine that waits for its descriptor is found and resumed. */
    method RunEvent(ev: Event, acts: nat -> seq<Act>, num: nat)
      requires Idle() && ev.fd in at.waiting
      modifies this, alive
      modifies at, at.queue, at.tree, at.entries, at.elms
      ensures Idle() && passes == old(passes) && dequeued == old(dequeued)
      ensures forall c :: c in alive && c !in old(alive) ==> fresh(c)
      ensures forall e :: e in at.entries && e !in old(at.entries) ==> fresh(e)
      ensures forall e :: e in at.elms && e !in old(at.elms) ==> fresh(e)
      ensures resumed == old(resumed) + [old(at.waiting)[ev.fd]] && old(at.ready) <= at.ready
      ensures moments == old(moments) + [Now()]
      ensures Turned(
        old(at.waiting)[ev.fd], acts(num), Moment(old(at.ready), old(at.waiting) - {ev.fd}), Now())
      ensures forall fd :: fd in old(at.waiting) && fd != ev.fd ==>
        fd in at.waiting && at.waiting[fd] == old(at.waiting)[fd]
    {
      hide Places.Valid, Places.NoneReady, Placed, InPlace, Counted, Outcome, Allowed, Clean, Stopped, Avoids;
      WaitersFound();
      var co := SearchWait(ev.fd, at.waiting[ev.fd]);
      if ev.eof {
        MarkEof(co);
      }
      Resume(co, Permitted(co, acts(num)));
    }

    /** Every event, from the last to the first, finds the coroutine that waits for its descriptor and resumes it. */
    method RunEvents(events: seq<Event>, replies: nat -> seq<Act>)
      requires Idle() && Deliverable(events, poller)
      modifies this, alive
      modifies at, at.queue, at.tree, at.entries, at.elms
      ensures Idle() && passes == old(passes) && dequeued == old(dequeued)
      ensures forall c :: c in alive && c !in old(alive) ==> fresh(c)
      ensures forall e :: e in at.entries && e !in old(at.entries) ==> fresh(e)
      ensures forall e :: e in at.elms && e !in old(at.elms) ==> fresh(e)
      ensures |resumed| == |old(resumed)| + |events| && old(resumed) <= resumed && old(at.ready) <= at.ready
      ensures |moments| == |old(moments)| + |events| && old(moments) <= moments
      ensures forall i :: 0 <= i < |events| ==>
        events[i].fd in old(at.waiting) && resumed[|resumed| - 1 - i] == old(at.waiting)[events[i].fd]
      ensures EventTurns(events, replies, old(Now()), moments, |old(moments)|)
      ensures Now() == Before(old(Now()), moments, |old(moments)|, |events|)
    {
      hide Places.Valid, Places.NoneReady, Placed, InPlace, Counted, Outcome, Allowed, Clean, Waits, Stopped;
      hide Answered, Turned, EventTurn;
      WaitersFound();
      ghost var was := History();
      AnsweredNone(events, replies, was);
      var num := |events|;
      while num != 0
        invariant Idle() && passes == old(passes) && 0 <= num <= |events|
        invariant forall c :: c in alive && c !in old(alive) ==> fresh(c)
        invariant forall e :: e in at.entries && e !in old(at.entries) ==> fresh(e)
        invariant forall e :: e in at.elms && e !in old(at.elms) ==> fresh(e)
        invariant Answered(events, replies, num, was, History())
      {
        num := num - 1;
        Answer(events, replies, num, was);
      }
      AnsweredAll(events, replies, was, History());
    }

    /** The event at place `num`. */
    method Answer(events: seq<Event>, replies: nat -> seq<Act>, num: nat, ghost was: Log)
      requires Idle() && num < |events| && Answered(events, replies, num + 1, was, History())
      modifies this, alive
      modifies at, at.queue, at.tree, at.entries, at.elms
      ensures Idle() && passes == old(passes)
      ensures forall c :: c in alive && c !in old(alive) ==> fresh(c)
      ensures forall e :: e in at.entries && e !in old(at.entries) ==> fresh(e)
      ensures forall e :: e in at.elms && e !in old(at.elms) ==> fresh(e)
      ensures Answered(events, replies, num, was, History())
    {
      hide Places.Valid, Places.NoneReady, Placed, InPlace, Counted, Outcome, Allowed, Clean, Waits, Stopped;
      hide Answered, Turned, EventTurn;
      ghost var l := History();
      AnsweredHere(events, replies, num, was, l);
      RunEvent(events[num], replies, num);
      AnsweredOne(events, replies, num, was, l, History());
    }

    lemma WaitersFound()
      requires Placed({})
      ensures poller == at.waiting.Keys
      ensures forall fd :: fd in at.waiting ==>
        && at.waiting[fd] in alive && at.waiting[fd].polling && at.waiting[fd].fd == fd && at.waiting[fd].ops == 0
        && Waits(at.waiting[fd])
    {
    }

    /** The poller is asked, and every event that it reports resumes its waiter. */
    method Deliver(reported: seq<Event>, replies: nat -> seq<Act>) returns (events: seq<Event>)
      requires Idle()
      modifies this, alive
      modifies at, at.queue, at.tree, at.entries, at.elms
      ensures Idle() && passes == old(passes) && dequeued == old(dequeued)
      ensures forall c :: c in alive && c !in old(alive) ==> fresh(c)
      ensures forall e :: e in at.entries && e !in old(at.entries) ==> fresh(e)
      ensures forall e :: e in at.elms && e !in old(at.elms) ==> fresh(e)
      ensures |resumed| == |old(resumed)| + |events| && old(resumed) <= resumed && old(at.ready) <= at.ready
      ensures |moments| == |old(moments)| + |events| && old(moments) <= moments
      ensures events == if old(at.ready) == [] && Deliverable(reported, old(at.waiting).Keys) then reported else []
      ensures
        && old(at.ready) == [] && (forall i :: 0 <= i < |reported| ==> reported[i].fd in old(at.waiting))
        && (forall i, j :: 0 <= i < j < |reported| ==> reported[i].fd != reported[j].fd)
        ==> events == reported
      ensures forall i :: 0 <= i < |events| ==>
        events[i].fd in old(at.waiting) && resumed[|resumed| - 1 - i] == old(at.waiting)[events[i].fd]
      ensures EventTurns(events, replies, old(Now()), moments, |old(moments)|)
      ensures Now() == Before(old(Now()), moments, |old(moments)|, |events|)
    {
      hide Places.Valid, Placed, InPlace, Counted, Waits, EventTurn;
      WaitersFound();
      QueueOnce();
      events := Epoll(reported);
      ghost var start, base := Now(), |moments|;
      if events != [] {
        RunEvents(events, replies);
      }
      assert EventTurns(events, replies, start, moments, base);
    }

    /**
     One round of the loop of nty_schedule_run.  Everybody who was ready runs, in order.  At the moment when
     the last of them has run, the poller is asked iff nobody is queued; the waiter of every event that it
     reports runs, and nobody else.
     */
    method Pass(bursts: nat -> seq<Act>, reported: seq<Event>, replies: nat -> seq<Act>) returns (events: seq<Event>)
      requires Idle()
      modifies this, alive
      modifies at, at.queue, at.tree, at.entries, at.elms
      ensures Idle()
      ensures forall c :: c in alive && c !in old(alive) ==> fresh(c)
      ensures forall e :: e in at.entries && e !in old(at.entries) ==> fresh(e)
      ensures forall e :: e in at.elms && e !in old(at.elms) ==> fresh(e)
      ensures dequeued == old(dequeued) + old(at.ready) && passes == old(passes) + 1
      ensures |resumed| == |old(resumed)| + |old(at.ready)| + |events| && old(resumed) + old(at.ready) <= resumed
      ensures |moments| == |old(moments)| + |old(at.ready)| + |events| && old(moments) <= moments
      ensures var n := |old(moments)| + |old(at.ready)|;
        var asked := if old(at.ready) == [] then Moment([], old(at.waiting)) else moments[n - 1];
        && (forall fd :: fd in old(at.waiting) ==> fd in asked.waiting && asked.waiting[fd] == old(at.waiting)[fd])
        && asked.ready <= at.ready
        && events == (if asked.ready == [] && Deliverable(reported, asked.waiting.Keys) then reported else [])
        && forall i :: 0 <= i < |events| ==>
          events[i].fd in asked.waiting && resumed[|resumed| - 1 - i] == asked.waiting[events[i].fd]
      ensures QueueTurns(old(at.ready), bursts, old(Now()), moments, |old(moments)|)
      ensures var n := |old(moments)| + |old(at.ready)|;
        EventTurns(events, replies, Before(old(Now()), moments, |old(moments)|, |old(at.ready)|), moments, n)
      ensures Now() == Before(old(Now()), moments, |old(moments)|, |old(at.ready)| + |events|)
    {
      hide Places.Valid, Placed, InPlace, Counted, Waits, Deliverable, EventTurns, QueueTurns;
      ghost var queue, start, base := at.ready, Now(), |moments|;
      RunReady(bursts);
      ghost var mid, asked := moments, Now();
      assert queue == [] ==> asked == start;
      events := Deliver(reported, replies);
      assert asked == Before(start, moments, base, |queue|);
      assert EventTurns(events, replies, asked, moments, |mid|);
      TurnsKept(queue, bursts, start, mid, moments, base);
      passes := passes + 1;
    }

    /** Round `pass` of the world, after the given rounds. */
    method PlayRound(w: World, pass: nat, ghost rounds: seq<Round>, ghost start: Moment, ghost base: nat)
      returns (ghost rounds': seq<Round>)
      requires Idle() && pass == |rounds| && PlayedAll(rounds, w, start, base, moments, Now())
      modifies this, alive
      modifies at, at.queue, at.tree, at.entries, at.elms
      ensures Idle() && passes == old(passes) + 1 && |rounds'| == pass + 1
      ensures forall c :: c in alive && c !in old(alive) ==> fresh(c)
      ensures forall e :: e in at.entries && e !in old(at.entries) ==> fresh(e)
      ensures forall e :: e in at.elms && e !in old(at.elms) ==> fresh(e)
      ensures PlayedAll(rounds', w, start, base, moments, Now())
      ensures dequeued == old(dequeued) + old(at.ready) && old(resumed) + old(at.ready) <= resumed
    {
      hide Places.Valid, Placed, InPlace, Counted, PlayedAll, QueueTurns, EventTurns;
      ghost var mid, was := moments, Now();
      var events := Pass(Bursts(w, pass), w.events(pass), Replies(w, pass));
      ghost var r := Round(was, |mid|, events);
      assert Played(r, w, pass, moments);
      PlayedMore(rounds, w, start, base, mid, was, moments, Now(), r);
      rounds' := rounds + [r];
    }

    /**
     nty_schedule_run, for at most this many passes: the rounds are what the world decides, one after the
     other, and the loop ends early only when nobody is alive.
     */
    method Run(w: World, most: nat) returns (done: bool, ghost rounds: seq<Round>)
      requires Idle()
      modifies this, alive
      modifies at, at.queue, at.tree, at.entries, at.elms
      ensures Idle() && passes <= old(passes) + most
      ensures forall c :: c in alive && c !in old(alive) ==> fresh(c)
      ensures forall e :: e in at.entries && e !in old(at.entries) ==> fresh(e)
      ensures forall e :: e in at.elms && e !in old(at.elms) ==> fresh(e)
      ensures if done then alive == {} && spawned == 0 else passes == old(passes) + most
      ensures |rounds| == passes - old(passes)
      ensures PlayedAll(rounds, w, old(Now()), |old(moments)|, moments, Now())
      ensures rounds != [] ==> old(enqueued) <= dequeued && old(resumed) + old(at.ready) <= resumed
    {
      hide Places.Valid, Placed, InPlace, Counted, PlayedAll, QueueTurns, EventTurns;
      var pass := 0;
      rounds := [];
      NoRounds(w, Now(), moments);
      QueueOnce();
      while pass < most
        invariant forall c :: c in alive && c !in old(alive) ==> fresh(c)
        invariant forall e :: e in at.entries && e !in old(at.entries) ==> fresh(e)
        invariant forall e :: e in at.elms && e !in old(at.elms) ==> fresh(e)
        invariant Idle() && pass <= most && passes == old(passes) + pass && |rounds| == pass
        invariant PlayedAll(rounds, w, old(Now()), |old(moments)|, moments, Now())
        invariant if rounds == []
          then dequeued == old(dequeued) && resumed == old(resumed) && Now() == old(Now())
          else old(enqueued) <= dequeued && old(resumed) + old(at.ready) <= resumed
      {
        if IsDone() {
          DoneWhenNoneAlive();
          done := true;
          return;
        }
        rounds := PlayRound(w, pass, rounds, old(Now()), |old(moments)|);
        pass := pass + 1;
      }
      done := false;
    }
  }

  lemma NoRounds(w: World, start: Moment, moments: seq<Moment>)
    ensures PlayedAll([], w, start, |moments|, moments, start)
  {
  }
}
