/**
 Sleeping coroutines: the tree of deadlines, and how long the poller may block.

 An element of the tree is a coroutine and its key is `sleep_usecs`, in microseconds since the scheduler
 was created.  The key keeps its last value after the coroutine has left the tree.
 */
module NtySleep {
  import opened NtyRbTree
  import opened Sequences

  const DEFAULT_TIMEOUT := 3000000

  /** What a run does with the sleep tree: time passes, coroutines are created, go to sleep, or are looked for. */
  datatype Move = Wait(usecs: nat) | Spawn | Sleep(which: nat, msecs: nat) | Expire

  datatype TimeSpec = TimeSpec(sec: nat, nsec: nat)

  /** The timeout as nty_schedule_epoll fills it in: from a second upwards it keeps only part of the rest. */
  function ToTimeSpec(usecs: nat): TimeSpec {
    var sec := usecs / 1000000;
    TimeSpec(sec, if sec != 0 then usecs % 1000 * 1000 else usecs * 1000)
  }

  /** The milliseconds that nty_epoller_wait passes on, cut to a whole number. */
  function ToMillis(t: TimeSpec): int {
    (t.sec as real * 1000.0 + t.nsec as real / 1000000.0).Floor
  }

  /**
   Below a second the poller waits for the time asked for, cut to milliseconds, and from a second upwards for
   the whole seconds.  So it never blocks longer than asked, and never without a limit.
   */
  lemma MillisBound(usecs: nat)
    ensures ToMillis(ToTimeSpec(usecs)) == if usecs < 1000000 then usecs / 1000 else usecs / 1000000 * 1000
    ensures 0 <= usecs - 1000 * ToMillis(ToTimeSpec(usecs)) < if usecs < 1000000 then 1000 else 1000000
  {
    var t := ToTimeSpec(usecs);
    var whole := t.sec as real * 1000.0;
    var part := t.nsec as real / 1000000.0;
    if t.sec == 0 {
      assert part * 1000.0 == usecs as real;
      assert part - 1.0 < part.Floor as real <= part;
    } else {
      assert usecs % 1000 < 1000;
      assert 0.0 <= part < 1.0;
      assert (whole + part).Floor == t.sec * 1000;
      assert usecs == 1000000 * t.sec + usecs % 1000000;
    }
  }

  /** A run in the abstract: the clock, the deadlines of those who sleep, how many coroutines there are, who woke up. */
  datatype Sim = Sim(now: nat, due: map<nat, int>, count: nat, log: seq<(int, int)>)

  /** Somebody other than `which` sleeps until `d`. */
  ghost predicate Claimed(s: Sim, which: nat, d: int) {
    exists i :: i in s.due && i != which && s.due[i] == d
  }

  /** The smallest deadline from `d0` on that no other sleeper has. */
  ghost predicate FirstFree(s: Sim, which: nat, d0: int, d: int) {
    d0 <= d && !Claimed(s, which, d) && forall e :: d0 <= e < d ==> Claimed(s, which, e)
  }

  /** The sleeper with the least deadline, which has come. */
  predicate Due(s: Sim, i: nat) {
    i in s.due && s.due[i] <= s.now && forall j :: j in s.due && j != i ==> s.due[i] < s.due[j]
  }

  ghost predicate SleepsUntil(s: Sim, which: nat, msecs: nat, d: int, s': Sim) {
    FirstFree(s, which, s.now + 1000 * msecs, d) && s' == s.(due := s.due[which := d])
  }

  /** One move of a run. */
  ghost predicate SimStep(s: Sim, move: Move, s': Sim) {
    match move
    case Wait(usecs) => s' == s.(now := s.now + usecs)
    case Spawn => s' == s.(count := s.count + 1)
    case Sleep(which, msecs) =>
      if which < s.count && msecs > 0
        then exists d :: SleepsUntil(s, which, msecs, d, s')
        else s' == s
    case Expire =>
      if exists i :: Due(s, i)
        then exists i :: Due(s, i) && s' == s.(due := s.due - {i}, log := s.log + [(s.due[i], s.now)])
        else s' == s && forall i :: i in s.due ==> s.now < s.due[i]
  }

  /** The states of a run of these moves, from the start on. */
  ghost predicate SimRun(states: seq<Sim>, moves: seq<Move>, now: nat) {
    && |states| == |moves| + 1 && states[0] == Sim(now, map[], 0, [])
    && forall m :: 0 <= m < |moves| ==> SimStepAt(states, moves, m)
  }

  lemma SimRunMore(states: seq<Sim>, moves: seq<Move>, now: nat, move: Move, s': Sim)
    requires SimRun(states, moves, now) && SimStep(states[|moves|], move, s')
    ensures SimRun(states + [s'], moves + [move], now)
  {
    hide SimStep;
    var more, all := states + [s'], moves + [move];
    forall m | 0 <= m < |all| ensures SimStepAt(more, all, m) {
      assert m < |moves| ==> SimStepAt(states, moves, m);
    }
  }

  ghost predicate SimStepAt(states: seq<Sim>, moves: seq<Move>, m: nat) {
    m < |moves| && m + 1 < |states| && SimStep(states[m], moves[m], states[m + 1])
  }

  class Sleepers {
    const sleeping: Head
    var now: nat
    ghost var all: set<Elm?>

    /** Deadlines of coroutines outside the tree lie in the past, and no sleeper has any of them. */
    ghost predicate Valid()
      reads this, sleeping, sleeping.nodes, sleeping.order, all
    {
      && sleeping.Ready() && sleeping.nodes <= all && null !in all
      && (forall d :: d in sleeping.keys ==> d > 0)
      && forall co: Elm? :: co in all && co !in sleeping.nodes ==> 0 <= co.key <= now && co.key !in sleeping.keys
    }

    constructor Create()
      ensures Valid() && all == {} && now == 0 && fresh(sleeping)
    {
      sleeping := new Head.Init();
      now := 0;
      all := {};
    }

    /** The clock does not go back. */
    method Tick(usecs: nat)
      requires Valid()
      modifies `now
      ensures Valid() && now == old(now) + usecs
    {
      now := now + usecs;
    }

    method Spawn() returns (co: Elm)
      requires Valid()
      modifies `all
      ensures Valid() && fresh(co) && all == old(all) + {co}
    {
      co := new Elm(0);
      all := all + {co};
    }

    /** RB_REMOVE, and what it leaves of the deadlines. */
    method Leave(co: Elm)
      requires sleeping.Ready() && co in sleeping.nodes
      modifies sleeping, sleeping.nodes`left, sleeping.nodes`right, sleeping.nodes`parent, sleeping.nodes`color
      ensures sleeping.Ready() && sleeping.nodes == old(sleeping.nodes) - {co}
      ensures co.key in old(sleeping.keys) && forall d :: d in sleeping.keys ==> d in old(sleeping.keys) && d != co.key
    {
      ghost var i := sleeping.KeyOf(co);
      var removed, k := sleeping.Remove(co);
    }

    /** The lookup by its last deadline finds the coroutine itself or nothing, so nobody else loses his place. */
    method Forget(co: Elm) returns (found: Elm?)
      requires Valid() && co in all
      modifies sleeping, sleeping.nodes`left, sleeping.nodes`right, sleeping.nodes`parent, sleeping.nodes`color
      ensures found == if co in old(sleeping.nodes) then co else null
      ensures sleeping.Ready() && sleeping.nodes == old(sleeping.nodes) - {co}
      ensures forall d :: d in sleeping.keys ==> d in old(sleeping.keys)
    {
      found := sleeping.Find(co.key);
      if co in sleeping.nodes {
        ghost var k := sleeping.KeyOf(co);
      }
      if found != null {
        Leave(found);
      }
    }

    /** A sleeper other than `co` has this deadline. */
    ghost predicate Taken(d: int, co: Elm)
      reads sleeping`nodes, sleeping.nodes`key
    {
      exists e: Elm? :: e in sleeping.nodes && e != null && e != co && e.key == d
    }

    /** The loop that looks for a free deadline from the present one of `co` upwards. */
    method Probe(co: Elm) returns (ghost k: nat)
      requires sleeping.Ready() && co !in sleeping.nodes
      modifies sleeping, sleeping.nodes`left, sleeping.nodes`right, sleeping.nodes`parent, sleeping.nodes`color
      modifies co`left, co`right, co`parent, co`color, co`key
      ensures sleeping.Ready() && sleeping.nodes == old(sleeping.nodes) + {co}
      ensures k <= |old(sleeping.keys)| && sleeping.keys == Inserted(old(sleeping.keys), k, co.key)
      ensures co.key >= old(co.key) && co.key !in old(sleeping.keys)
      ensures forall d :: old(co.key) <= d < co.key ==> d in old(sleeping.keys)
    {
      hide Head.Ready;
      ghost var top := if sleeping.keys == [] then 0 else sleeping.keys[|sleeping.keys| - 1];
      while true
        invariant sleeping.Ready() && co !in sleeping.nodes
        invariant sleeping.nodes == old(sleeping.nodes) && sleeping.keys == old(sleeping.keys)
        invariant co.key >= old(co.key)
        invariant forall d :: old(co.key) <= d < co.key ==> d in old(sleeping.keys)
        decreases top + 1 - co.key
      {
        var coTmp: Elm?;
        coTmp, k := sleeping.Insert(co);
        if coTmp != null {
          TopKey(co.key);
          sleeping.Listed(co);
          co.key := co.key + 1;
          continue;
        }
        return;
      }
    }

    lemma TopKey(d: int)
      requires sleeping.Ready() && d in sleeping.keys
      ensures d <= sleeping.keys[|sleeping.keys| - 1]
    {
    }

    /** Files `co`, which is not in the tree, at the first free deadline from the given one on. */
    method FileAt(co: Elm, deadline: int)
      requires sleeping.Ready() && co !in sleeping.nodes
      modifies sleeping, sleeping.nodes`left, sleeping.nodes`right, sleeping.nodes`parent, sleeping.nodes`color
      modifies co`left, co`right, co`parent, co`color, co`key
      ensures sleeping.Ready() && sleeping.nodes == old(sleeping.nodes) + {co}
      ensures co.key >= deadline && !Taken(co.key, co)
      ensures forall d :: deadline <= d < co.key ==> Taken(d, co)
      ensures forall d :: d in sleeping.keys <==> d == co.key || d in old(sleeping.keys)
    {
      ghost var taken := sleeping.keys;
      sleeping.Listed(co);
      hide Head.Ready, Taken, Inserted;
      co.key := deadline;
      ghost var k := Probe(co);
      Filed(co, taken);
    }

    /**
     nty_schedule_sched_sleepdown with a positive length: the coroutine is filed at the smallest deadline
     from the requested one on that nobody else has; all other sleepers keep their place and deadline.
     */
    method SleepDown(co: Elm, msecs: nat)
      requires Valid() && co in all && msecs > 0
      modifies sleeping, sleeping.nodes`left, sleeping.nodes`right, sleeping.nodes`parent, sleeping.nodes`color
      modifies co`left, co`right, co`parent, co`color, co`key
      ensures Valid() && sleeping.nodes == old(sleeping.nodes) + {co}
      ensures co.key >= now + msecs * 1000 && !Taken(co.key, co)
      ensures forall d :: now + msecs * 1000 <= d < co.key ==> Taken(d, co)
    {
      var coTmp := Forget(co);
      hide Head.Ready, Taken;
      FileAt(co, now + msecs * 1000);
    }

    /** Which deadlines are taken, once `co` is filed among the deadlines `taken`. */
    lemma Filed(co: Elm, taken: seq<int>)
      requires sleeping.Ready() && co in sleeping.nodes && co.key !in taken
      requires exists k :: 0 <= k <= |taken| && sleeping.keys == Inserted(taken, k, co.key)
      ensures forall d :: d != co.key ==> (Taken(d, co) <==> d in taken)
      ensures !Taken(co.key, co)
      ensures forall d :: d in sleeping.keys <==> d == co.key || d in taken
    {
      hide Head.Ready;
      var k :| 0 <= k <= |taken| && sleeping.keys == Inserted(taken, k, co.key);
      forall d ensures d in sleeping.keys <==> d == co.key || d in taken {
        if d in taken {
          var i :| 0 <= i < |taken| && taken[i] == d;
          assert sleeping.keys[if i < k then i else i + 1] == d;
        }
      }
      ghost var j := sleeping.KeyOf(co);
      forall d | d != co.key ensures Taken(d, co) <==> d in taken {
        sleeping.Holder(d);
      }
    }

    /** nty_schedule_expired: the sleeper with the least deadline leaves, if that deadline has come. */
    method Expired() returns (co: Elm?)
      requires Valid()
      modifies sleeping, sleeping.nodes`left, sleeping.nodes`right, sleeping.nodes`parent, sleeping.nodes`color
      ensures Valid()
      ensures co == null ==>
        && sleeping.nodes == old(sleeping.nodes)
        && forall e: Elm? :: e in sleeping.nodes && e != null ==> now < e.key
      ensures co != null ==>
        && co in old(sleeping.nodes) && sleeping.nodes == old(sleeping.nodes) - {co} && co.key <= now
        && forall e: Elm? :: e in sleeping.nodes && e != null ==> co.key < e.key
    {
      co := sleeping.MinMax(-1);
      Least(co);
      hide Head.Ready;
      if co == null {
        return;
      }
      if co.key <= now {
        Leave(co);
        return;
      }
      co := null;
    }

    /** The first element has the least deadline. */
    lemma Least(co: Elm?)
      requires sleeping.Ready()
      requires co == if sleeping.order == [] then null else sleeping.order[0]
      ensures co == null ==> sleeping.nodes == {}
      ensures co != null ==>
        && co in sleeping.nodes
        && forall e: Elm? :: e in sleeping.nodes && e != null && e != co ==> co.key < e.key
    {
      if co != null {
        sleeping.Listed(co);
        forall e: Elm? | e in sleeping.nodes && e != null && e != co ensures co.key < e.key {
          var k := sleeping.KeyOf(e);
        }
      } else if sleeping.nodes != {} {
        var e :| e in sleeping.nodes;
        var k := sleeping.KeyOf(e);
      }
    }

    /**
     nty_schedule_min_timeout: the time to the least deadline, nothing if it has come, the default without
     sleepers.
     */
    method MinTimeout() returns (usecs: nat)
      requires Valid()
      ensures forall e: Elm? :: e in sleeping.nodes && e != null ==> usecs == 0 || now + usecs <= e.key
      ensures sleeping.nodes == {} ==> usecs == 3000000
      ensures sleeping.nodes != {} ==>
        exists e: Elm? :: e in sleeping.nodes && e != null && usecs == if now < e.key then e.key - now else 0
    {
      var co := sleeping.MinMax(-1);
      Least(co);
      if co == null {
        return DEFAULT_TIMEOUT;
      }
      var min := co.key;
      if min > now {
        return min - now;
      }
      usecs := 0;
    }

    /**
     nty_schedule_epoll up to the wait: the poller blocks exactly when nothing is ready and no deadline has
     come, and then with a limit: up to less than a second before the earliest deadline, or less than a
     millisecond if that is less than a second away, but not past it.  Without sleepers it is three seconds.
     */
    method BlockTime(nothingReady: bool) returns (block: bool, millis: int)
      requires Valid()
      ensures block <==> nothingReady && AllAfter(now)
      ensures block ==> millis >= 0 && AllAfter(now + 1000 * millis - 1)
      ensures block ==> !AllAfter(now + 1000 * millis + 999999) || sleeping.nodes == {}
      ensures block && !AllAfter(now + 999999) ==> !AllAfter(now + 1000 * millis + 999)
      ensures block && sleeping.nodes == {} ==> millis == 3000
    {
      var usecs := MinTimeout();
      block, millis := usecs != 0 && nothingReady, 0;
      if block {
        millis := ToMillis(ToTimeSpec(usecs));
        MillisBound(usecs);
      }
    }

    /** No sleeper's deadline is at or before `d`. */
    ghost predicate AllAfter(d: int)
      reads sleeping, sleeping.nodes`key
    {
      forall e: Elm? :: e in sleeping.nodes && e != null ==> d < e.key
    }

    /** The coroutines `cos` are in the abstract state: who sleeps, and until when. */
    ghost predicate Shows(s: Sim, cos: seq<Elm>)
      reads `now, sleeping`nodes, sleeping.nodes`key
    {
      && s.now == now && s.count == |cos| && Injective(cos)
      && (forall i :: i in s.due ==> i < |cos| && cos[i] in sleeping.nodes && cos[i].key == s.due[i])
      && forall e :: e in sleeping.nodes ==> exists i :: i in s.due && i < |cos| && cos[i] == e
    }

    /** The same, as far as the others than `which` are concerned. */
    ghost predicate ShowsOthers(s: Sim, cos: seq<Elm>, which: nat)
      reads sleeping`nodes, sleeping.nodes`key
      requires which < |cos|
    {
      && (forall i :: i in s.due && i != which ==>
        i < |cos| && cos[i] != cos[which] && cos[i] in sleeping.nodes && cos[i].key == s.due[i])
      && forall e :: e in sleeping.nodes && e != cos[which] ==>
        exists i :: i in s.due && i < |cos| && i != which && cos[i] == e
    }

    lemma Others(s: Sim, cos: seq<Elm>, which: nat)
      requires Shows(s, cos) && which < |cos|
      ensures ShowsOthers(s, cos, which)
    {
      forall i | i in s.due && i != which ensures cos[i] != cos[which] {
        assert if i < which then cos[i] != cos[which] else cos[which] != cos[i];
      }
    }

    /** What the tree says about a deadline is what the abstract state says. */
    lemma TakenShown(s: Sim, cos: seq<Elm>, which: nat, d: int)
      requires which < |cos| && ShowsOthers(s, cos, which) && null !in sleeping.nodes
      ensures Taken(d, cos[which]) <==> Claimed(s, which, d)
    {
      if e: Elm? :| e in sleeping.nodes && e != null && e != cos[which] && e.key == d {
        var i :| i in s.due && i < |cos| && i != which && cos[i] == e;
      }
      if i :| i in s.due && i != which && s.due[i] == d {
        assert cos[i] in sleeping.nodes && cos[i].key == d;
      }
    }

    /** One move of a run; `woken` is who left the tree because of its deadline. */
    method Step(move: Move, cos: seq<Elm>, ghost last: int, ghost s: Sim)
      returns (cos': seq<Elm>, woken: Elm?, ghost s': Sim)
      requires Valid() && (forall co :: co in cos ==> co in all) && AllAfter(last) && last <= now && Shows(s, cos)
      modifies this, sleeping, all
      ensures Valid() && (forall co :: co in cos' ==> co in all) && old(now) <= now
      ensures forall n :: n in all && n !in old(all) ==> fresh(n)
      ensures match move
        case Wait(usecs) => now == old(now) + usecs && cos' == cos
        case Spawn => now == old(now) && |cos'| == |cos| + 1 && cos <= cos'
        case Sleep(which, msecs) => now == old(now) && cos' == cos
          && (which < |cos| && msecs > 0 ==> cos[which] in sleeping.nodes && cos[which].key >= now + 1000 * msecs)
        case Expire => now == old(now) && cos' == cos && (woken == null ==> AllAfter(now))
      ensures woken == null ==> AllAfter(last)
      ensures woken != null ==> last < woken.key <= now && AllAfter(woken.key)
      ensures Shows(s', cos') && SimStep(s, move, s') && s'.now == now
      ensures s'.log == if woken == null then s.log else s.log + [(woken.key, now)]
    {
      hide Head.Ready;
      cos', woken := cos, null;
      match move
      case Wait(usecs) =>
        Tick(usecs);
        s' := s.(now := now);
      case Spawn =>
        var co := Spawn();
        cos' := cos + [co];
        s' := s.(count := s.count + 1);
      case Sleep(which, msecs) =>
        s' := s;
        if which < |cos| && msecs > 0 {
          s' := SleepOne(cos, which, msecs, s);
        }
      case Expire =>
        woken, s' := ExpireOne(cos, s);
    }

    method SleepOne(cos: seq<Elm>, which: nat, msecs: nat, ghost s: Sim) returns (ghost s': Sim)
      requires Valid() && which < |cos| && cos[which] in all && msecs > 0 && Shows(s, cos)
      modifies sleeping, sleeping.nodes`left, sleeping.nodes`right, sleeping.nodes`parent, sleeping.nodes`color
      modifies cos[which]
      ensures Valid() && Shows(s', cos) && SimStep(s, Sleep(which, msecs), s') && s'.log == s.log
      ensures cos[which] in sleeping.nodes && cos[which].key >= now + 1000 * msecs
      ensures sleeping.nodes == old(sleeping.nodes) + {cos[which]}
    {
      hide Head.Ready;
      Others(s, cos, which);
      SleepDown(cos[which], msecs);
      assert ShowsOthers(s, cos, which);
      s' := Placed(cos, which, now + 1000 * msecs, s);
      assert SleepsUntil(s, which, msecs, cos[which].key, s');
    }

    /** The abstract move that belongs to a sleeper who has just been filed. */
    lemma Placed(cos: seq<Elm>, which: nat, d0: int, s: Sim) returns (s': Sim)
      requires Valid() && which < |cos| && cos[which] in sleeping.nodes && ShowsOthers(s, cos, which)
      requires s.now == now && s.count == |cos| && Injective(cos)
      requires cos[which].key >= d0 && !Taken(cos[which].key, cos[which])
      requires forall d :: d0 <= d < cos[which].key ==> Taken(d, cos[which])
      ensures Shows(s', cos) && s' == s.(due := s.due[which := cos[which].key])
      ensures FirstFree(s, which, d0, cos[which].key)
    {
      hide Head.Ready, Taken;
      s' := s.(due := s.due[which := cos[which].key]);
      forall d ensures Taken(d, cos[which]) <==> Claimed(s, which, d) {
        TakenShown(s, cos, which, d);
      }
      hide Claimed;
      forall e | e in sleeping.nodes ensures exists i :: i in s'.due && i < |cos| && cos[i] == e {
        if e == cos[which] {
          assert which in s'.due;
        } else {
          var i :| i in s.due && i < |cos| && i != which && cos[i] == e;
          assert i in s'.due;
        }
      }
    }

    /** The abstract move that belongs to a sleeper who has just left the tree. */
    lemma Woken(cos: seq<Elm>, woken: Elm, s: Sim) returns (s': Sim)
      requires Valid() && woken !in sleeping.nodes && AllAfter(woken.key) && woken.key <= now
      requires s.now == now && s.count == |cos| && Injective(cos)
      requires forall i :: i in s.due ==>
        i < |cos| && (cos[i] in sleeping.nodes || cos[i] == woken) && cos[i].key == s.due[i]
      requires forall e :: e in sleeping.nodes || e == woken ==> exists i :: i in s.due && i < |cos| && cos[i] == e
      ensures Shows(s', cos) && SimStep(s, Expire, s') && s'.log == s.log + [(woken.key, now)]
    {
      hide Head.Ready;
      var i :| i in s.due && i < |cos| && cos[i] == woken;
      s' := s.(due := s.due - {i}, log := s.log + [(s.due[i], s.now)]);
      forall j | j in s.due && j != i ensures cos[j] in sleeping.nodes && s.due[i] < s.due[j] {
        assert if i < j then cos[i] != cos[j] else cos[j] != cos[i];
      }
      assert Due(s, i);
      forall e | e in sleeping.nodes ensures exists j :: j in s'.due && j < |cos| && cos[j] == e {
        var j :| j in s.due && j < |cos| && cos[j] == e;
        assert j in s'.due;
      }
    }

    method ExpireOne(cos: seq<Elm>, ghost s: Sim) returns (woken: Elm?, ghost s': Sim)
      requires Valid() && Shows(s, cos)
      modifies sleeping, sleeping.nodes`left, sleeping.nodes`right, sleeping.nodes`parent, sleeping.nodes`color
      ensures Valid() && Shows(s', cos) && SimStep(s, Expire, s')
      ensures woken == null ==> sleeping.nodes == old(sleeping.nodes) && AllAfter(now) && s' == s
      ensures woken != null ==>
        && woken in old(sleeping.nodes) && sleeping.nodes == old(sleeping.nodes) - {woken}
        && woken.key <= now && AllAfter(woken.key) && s'.log == s.log + [(woken.key, now)]
    {
      hide Head.Ready;
      woken := Expired();
      if woken == null {
        s' := s;
        return;
      }
      s' := Woken(cos, woken, s);
    }

    lemma NobodySleeps()
      requires Valid() && all == {}
      ensures Shows(Sim(now, map[], 0, []), []) && AllAfter(-1) && SimRun([Sim(now, map[], 0, [])], [], now)
    {
    }

    /** The next move of a run. */
    method PlayOne(move: Move, cos: seq<Elm>, log: seq<(int, int)>,
      ghost last: int, ghost states: seq<Sim>, ghost done: seq<Move>, ghost start: nat)
      returns (cos': seq<Elm>, log': seq<(int, int)>, ghost last': int, ghost states': seq<Sim>)
      requires Valid() && (forall co :: co in cos ==> co in all) && AllAfter(last) && InOrder(log, last, now)
      requires SimRun(states, done, start) && |states| == |done| + 1
      requires Shows(states[|done|], cos) && states[|done|].log == log
      modifies this, sleeping, all
      ensures Valid() && (forall co :: co in cos' ==> co in all) && AllAfter(last') && InOrder(log', last', now)
      ensures forall n :: n in all && n !in old(all) ==> fresh(n)
      ensures SimRun(states', done + [move], start) && |states'| == |done| + 2
      ensures Shows(states'[|done| + 1], cos') && states'[|done| + 1].log == log' && states'[|done| + 1].now == now
    {
      InOrderLast(log, last, now);
      hide Valid, Shows, AllAfter, SimStep, SimRun, InOrder;
      var woken: Elm?;
      ghost var before := now;
      ghost var next;
      cos', woken, next := Step(move, cos, last, states[|done|]);
      SimRunMore(states, done, start, move, next);
      states' := states + [next];
      InOrderLater(log, last, before, now);
      log', last' := log, last;
      if woken != null {
        InOrderMore(log, last, woken.key, now);
        log', last' := log + [(woken.key, now)], woken.key;
      }
    }

    /**
     Over any run, sleepers wake up in the strict order of their deadlines, and none before its deadline.  Who
     wakes up and when is what the abstract run says, in which a sleeper is a coroutine with a deadline.
     */
    method Replay(moves: seq<Move>) returns (log: seq<(int, int)>, ghost states: seq<Sim>)
      requires Valid() && all == {}
      modifies this, sleeping
      ensures Valid()
      ensures forall i, j :: 0 <= i < j < |log| ==> log[i].0 < log[j].0
      ensures forall i :: 0 <= i < |log| ==> log[i].0 <= log[i].1 <= now
      ensures SimRun(states, moves, old(now))
      ensures log == states[|moves|].log && now == states[|moves|].now
    {
      NobodySleeps();
      hide Valid, Shows, AllAfter, SimStep, SimRun;
      log := [];
      var cos: seq<Elm> := [];
      ghost var last := -1;
      states := [Sim(now, map[], 0, [])];
      assert moves[..0] == [];
      for m := 0 to |moves|
        invariant Valid() && (forall n :: n in all ==> fresh(n)) && (forall co :: co in cos ==> co in all)
        invariant AllAfter(last) && InOrder(log, last, now) && SimRun(states, moves[..m], old(now))
        invariant |states| == m + 1 && Shows(states[m], cos) && states[m].log == log && states[m].now == now
      {
        cos, log, last, states := PlayOne(moves[m], cos, log, last, states, moves[..m], old(now));
        assert moves[..m + 1] == moves[..m] + [moves[m]];
      }
      assert moves[..|moves|] == moves;
    }
  }

  /** The deadlines in the log rise up to `last`, and none was passed on before it came. */
  predicate InOrder(log: seq<(int, int)>, last: int, now: int) {
    && last <= now && (log != [] ==> last == log[|log| - 1].0)
    && (forall i, j :: 0 <= i < j < |log| ==> log[i].0 < log[j].0)
    && forall i :: 0 <= i < |log| ==> log[i].0 <= log[i].1 <= now
  }

  lemma InOrderLast(log: seq<(int, int)>, last: int, now: int)
    requires InOrder(log, last, now)
    ensures last <= now
  {
  }

  lemma InOrderLater(log: seq<(int, int)>, last: int, now: int, later: int)
    requires InOrder(log, last, now) && now <= later
    ensures InOrder(log, last, later)
  {
  }

  lemma InOrderMore(log: seq<(int, int)>, last: int, key: int, now: int)
    requires InOrder(log, last, now) && last < key <= now
    ensures InOrder(log + [(key, now)], key, now)
  {
  }
}
