/**
 Tail queues: doubly linked lists whose back links, and whose last link, are addresses of links.  The
 ready queue of the scheduler is one of them.
 */
module NtyQueue {
  import opened Sequences

  /** The address of a link: the first link of a queue or the next link of an entry. */
  datatype Slot = FirstOf(queue: TailQueue) | NextOf(entry: Entry)

  class Entry {
    var next: Entry?
    var prev: Slot

    constructor (queue: TailQueue)
    {
      next, prev := null, FirstOf(queue);
    }
  }

  class TailQueue {
    var first: Entry?
    var last: Slot
    ghost var entries: seq<Entry>

    /** The link that leads to place `i`. */
    ghost function SlotAt(s: seq<Entry>, i: nat): Slot
      requires i <= |s|
    {
      if i == 0 then FirstOf(this) else NextOf(s[i - 1])
    }

    /** The links through `s`. */
    ghost predicate Linked(s: seq<Entry>)
      reads `first, `last, s
    {
      && Injective(s) && first == Nth(s, 0, null) && last == SlotAt(s, |s|)
      && forall i {:trigger s[i].next} {:trigger s[i].prev} :: 0 <= i < |s| ==>
        s[i].next == Nth(s, i + 1, null) && s[i].prev == SlotAt(s, i)
    }

    ghost predicate Valid()
      reads this, entries
    {
      Linked(entries)
    }

    /** TAILQ_INIT */
    constructor Init()
      ensures Valid() && entries == []
    {
      first, last, entries := null, FirstOf(this), [];
    }

    /** What stands in a link of this queue. */
    static function Load(slot: Slot): Entry?
      reads match slot case FirstOf(q) => {q as object} case NextOf(e) => {e}
    {
      match slot
      case FirstOf(q) => q.first
      case NextOf(e) => e.next
    }

    /** The back link that stands behind a link: a queue head and an entry have the same layout. */
    static function Behind(slot: Slot): Slot
      reads match slot case FirstOf(q) => {q as object} case NextOf(e) => {e}
    {
      match slot
      case FirstOf(q) => q.last
      case NextOf(e) => e.prev
    }

    static method Store(slot: Slot, e: Entry?)
      modifies (if slot.FirstOf? then {slot.queue} else {})`first, (if slot.NextOf? then {slot.entry} else {})`next
      ensures match slot case FirstOf(q) => q.first == e case NextOf(x) => x.next == e
    {
      match slot {
        case FirstOf(q) => q.first := e;
        case NextOf(x) => x.next := e;
      }
    }

    /** TAILQ_FIRST */
    method First() returns (e: Entry?)
      requires Valid()
      ensures e == if entries == [] then null else entries[0]
    {
      e := first;
    }

    /** TAILQ_LAST */
    method Last() returns (e: Entry?)
      requires Valid()
      ensures e == if entries == [] then null else entries[|entries| - 1]
    {
      e := Load(Behind(last));
    }

    /** TAILQ_PREV */
    method Prev(e: Entry, ghost k: nat) returns (p: Entry?)
      requires Valid() && k < |entries| && e == entries[k]
      ensures p == if k == 0 then null else entries[k - 1]
    {
      p := Load(Behind(e.prev));
    }

    /** TAILQ_INSERT_TAIL */
    method InsertTail(e: Entry)
      requires Valid() && e !in entries
      modifies this, e, entries`next
      ensures Valid() && entries == old(entries) + [e]
    {
      e.next := null;
      e.prev := last;
      Store(last, e);
      last := NextOf(e);
      entries := entries + [e];
    }

    /** The links of the entries other than the one at place `k`, which the others skip. */
    ghost predicate Skipped(s: seq<Entry>, k: nat)
      reads `first, `last, s
      requires k < |s|
    {
      && first == Nth(s, if k == 0 then 1 else 0, null) && last == SlotAt(s, if k == |s| - 1 then k else |s|)
      && (forall i {:trigger s[i].next} {:trigger s[i].prev} :: 0 <= i < |s| && i != k ==>
        && s[i].next == Nth(s, if i + 1 == k then k + 1 else i + 1, null)
        && s[i].prev == SlotAt(s, if i == k + 1 then k else i))
    }

    /** The assignment of TAILQ_REMOVE to a back link */
    method UnlinkBack(e: Entry, ghost k: nat)
      requires Valid() && k < |entries| && e == entries[k]
      modifies this`last, entries`prev
      ensures last == SlotAt(entries, if k == |entries| - 1 then k else |entries|) && e.prev == SlotAt(entries, k)
      ensures forall i {:trigger entries[i].prev} :: 0 <= i < |entries| ==>
        entries[i].prev == SlotAt(entries, if i == k + 1 then k else i)
    {
      if e.next != null {
        e.next.prev := e.prev;
      } else {
        last := e.prev;
      }
    }

    /** The assignments of TAILQ_REMOVE */
    method Unlink(e: Entry, ghost k: nat)
      requires Valid() && k < |entries| && e == entries[k]
      modifies this`first, this`last, entries
      ensures Skipped(entries, k)
    {
      UnlinkBack(e, k);
      Store(e.prev, e.next);
    }

    /** TAILQ_REMOVE */
    method Remove(e: Entry, ghost k: nat)
      requires Valid() && k < |entries| && e == entries[k]
      modifies this, entries
      ensures Valid() && entries == Removed(old(entries), k)
    {
      ghost var s := entries;
      Unlink(e, k);
      SkippedLinked(s, k);
      hide Linked;
      entries := Removed(s, k);
    }

    lemma SkippedLinked(s: seq<Entry>, k: nat)
      requires k < |s| && Injective(s) && Skipped(s, k)
      ensures Linked(Removed(s, k))
    {
      hide Skipped, Nth;
      var r := Removed(s, k);
      InjectiveRemoved(s, k);
      SkippedEnds(s, k);
      forall i {:trigger r[i]} | 0 <= i < |r| ensures r[i].next == Nth(r, i + 1, null) && r[i].prev == SlotAt(r, i) {
        SkippedAt(s, k, i);
      }
    }

    lemma SkippedEnds(s: seq<Entry>, k: nat)
      requires k < |s| && Injective(s) && Skipped(s, k)
      ensures first == Nth(Removed(s, k), 0, null) && last == SlotAt(Removed(s, k), |s| - 1)
    {
      RemovedAt(s, k, 0);
      RemovedAt(s, k, |s| - 1);
    }

    lemma SkippedAt(s: seq<Entry>, k: nat, i: nat)
      requires k < |s| && Injective(s) && Skipped(s, k) && i < |Removed(s, k)|
      ensures var r := Removed(s, k); r[i].next == Nth(r, i + 1, null) && r[i].prev == SlotAt(r, i)
    {
      RemovedAt(s, k, i);
      RemovedAt(s, k, i + 1);
    }

    /** What stands before and behind place `i` after a removal. */
    lemma RemovedAt(s: seq<Entry>, k: nat, i: nat)
      requires k < |s| && Injective(s) && i <= |Removed(s, k)|
      ensures var r := Removed(s, k);
        && Nth(r, i, null) == Nth(s, if i < k then i else i + 1, null)
        && SlotAt(r, i) == (if i <= k then SlotAt(s, i) else SlotAt(s, i + 1))
        && (i < |r| ==> r[i] == (if i < k then s[i] else s[i + 1]) && r[i] != s[k])
    {
    }

    /** The links between the entries `a` and the entries `b` that follow them. */
    ghost predicate Joined(a: seq<Entry>, b: seq<Entry>)
      reads a, b
      requires b != []
    {
      && (forall i {:trigger a[i].next} {:trigger a[i].prev} :: 0 <= i < |a| ==>
        a[i].next == (if i + 1 < |a| then a[i + 1] else b[0]) && a[i].prev == SlotAt(a, i))
      && (forall i {:trigger b[i].next} {:trigger b[i].prev} :: 0 <= i < |b| ==>
        b[i].next == Nth(b, i + 1, null) && b[i].prev == if i == 0 then SlotAt(a, |a|) else SlotAt(b, i))
    }

    /** The first assignment of TAILQ_CONCAT links the last of `a` to the first of `b`. */
    method JoinFront(other: TailQueue, ghost a: seq<Entry>, ghost b: seq<Entry>)
      requires Linked(a) && other.Linked(b) && this != other && b != []
      requires forall e :: e in a ==> e !in b
      modifies this`first, a`next
      ensures first == (if a == [] then b[0] else a[0]) && last == SlotAt(a, |a|) && other.Linked(b)
      ensures forall i {:trigger a[i].next} {:trigger a[i].prev} :: 0 <= i < |a| ==>
        a[i].next == (if i + 1 < |a| then a[i + 1] else b[0]) && a[i].prev == SlotAt(a, i)
    {
      Store(last, other.first);
      assert forall i :: 0 <= i < |b| ==> b[i] in b && b[i] !in a;
    }

    /** The other assignments of TAILQ_CONCAT link the first of `b` back, and the other queue is empty. */
    method JoinBack(other: TailQueue, ghost a: seq<Entry>, ghost b: seq<Entry>)
      requires last == SlotAt(a, |a|) && other.Linked(b) && this != other && b != []
      modifies this`last, other`first, other`last, {b[0]}`prev
      ensures last == NextOf(b[|b| - 1]) && other.first == null && other.last == FirstOf(other)
      ensures forall i {:trigger b[i].next} {:trigger b[i].prev} :: 0 <= i < |b| ==>
        b[i].next == Nth(b, i + 1, null) && b[i].prev == if i == 0 then SlotAt(a, |a|) else SlotAt(b, i)
    {
      other.first.prev := last;
      last := other.last;
      other.first := null;
      other.last := FirstOf(other);
    }

    method ConcatLinks(other: TailQueue, ghost a: seq<Entry>, ghost b: seq<Entry>)
      requires Valid() && other.Valid() && this != other && a == entries && b == other.entries && b != []
      requires forall e :: e in a ==> e !in b
      modifies this`first, this`last, other`first, other`last, a`next, b`prev
      ensures first == (if a == [] then b[0] else a[0]) && last == NextOf(b[|b| - 1])
      ensures other.first == null && other.last == FirstOf(other) && Joined(a, b)
    {
      hide Linked, Injective;
      JoinFront(other, a, b);
      assert b[0] in b && forall i :: 0 <= i < |a| ==> a[i] in a && a[i] != b[0];
      JoinBack(other, a, b);
    }

    method ConcatEntries(other: TailQueue, ghost a: seq<Entry>, ghost b: seq<Entry>)
      requires Valid() && other.Valid() && this != other && a == entries && b == other.entries && b != []
      requires forall e :: e in a ==> e !in b
      modifies this`first, this`last, other`first, other`last, a`next, b`prev
      ensures Linked(a + b) && other.Linked([])
    {
      InjectiveConcat(a, b);
      ConcatLinks(other, a, b);
      hide Joined;
      LinksJoined(a, b);
    }

    /** TAILQ_CONCAT: the entries of the other queue move behind those of this one. */
    method Concat(other: TailQueue)
      requires Valid() && other.Valid() && this != other
      requires forall e :: e in entries ==> e !in other.entries
      modifies this, other, entries`next, other.entries`prev
      ensures Valid() && entries == old(entries) + old(other.entries)
      ensures other.Valid() && other.entries == []
    {
      ghost var a, b := entries, other.entries;
      assert other.first != null <==> b != [];
      hide Linked;
      if other.first != null {
        ConcatEntries(other, a, b);
        entries, other.entries := a + b, [];
      } else {
        assert a + b == a;
      }
    }

    lemma LinksJoined(a: seq<Entry>, b: seq<Entry>)
      requires b != [] && Joined(a, b)
      ensures forall i {:trigger (a + b)[i].next} {:trigger (a + b)[i].prev} :: 0 <= i < |a + b| ==>
        (a + b)[i].next == Nth(a + b, i + 1, null) && (a + b)[i].prev == SlotAt(a + b, i)
    {
      forall i | 0 <= i < |a + b|
        ensures (a + b)[i].next == Nth(a + b, i + 1, null) && (a + b)[i].prev == SlotAt(a + b, i)
      {
        JoinedAt(a, b, i);
      }
    }

    lemma JoinedAt(a: seq<Entry>, b: seq<Entry>, i: nat)
      requires b != [] && Joined(a, b) && i < |a + b|
      ensures (a + b)[i].next == Nth(a + b, i + 1, null) && (a + b)[i].prev == SlotAt(a + b, i)
    {
      assert (a + b)[i] == if i < |a| then a[i] else b[i - |a|];
      assert i > 0 ==> (a + b)[i - 1] == if i - 1 < |a| then a[i - 1] else b[i - 1 - |a|];
      assert i + 1 < |a + b| ==> (a + b)[i + 1] == if i + 1 < |a| then a[i + 1] else b[i + 1 - |a|];
    }
  }
}
