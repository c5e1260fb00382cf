/** Inserting into and removing from a sequence. */
module Sequences {
  function Inserted<T>(s: seq<T>, k: nat, x: T): (r: seq<T>)
    requires k <= |s|
    ensures |r| == |s| + 1 && r[k] == x
    ensures forall i :: 0 <= i < k ==> r[i] == s[i]
    ensures forall i :: k < i < |r| ==> r[i] == s[i - 1]
  {
    s[..k] + [x] + s[k..]
  }

  function Removed<T>(s: seq<T>, k: nat): (r: seq<T>)
    requires k < |s|
    ensures |r| == |s| - 1
    ensures forall i :: 0 <= i < k ==> r[i] == s[i]
    ensures forall i :: k <= i < |r| ==> r[i] == s[i + 1]
  {
    s[..k] + s[k + 1..]
  }

  lemma Reassociated<T>(a: seq<T>, b: seq<T>, c: seq<T>)
    ensures a + b + c == a + (b + c)
  {
  }

  lemma SameEnd<T>(a: seq<T>, b: seq<T>, c: seq<T>, d: seq<T>, e: seq<T>)
    requires a + b + c == a + d + e
    ensures b + c == d + e
  {
    assert (a + b + c)[|a|..] == b + c;
    assert (a + d + e)[|a|..] == d + e;
  }

  lemma InsertedMiddle<T>(a: seq<T>, x: T, b: seq<T>)
    ensures Inserted(a + b, |a|, x) == a + [x] + b
    ensures Removed(a + [x] + b, |a|) == a + b
  {
  }

  lemma RemovedInserted<T>(s: seq<T>, k: nat, x: T)
    requires k <= |s|
    ensures Removed(Inserted(s, k, x), k) == s
  {
  }

  /** The element at place `i`, or `none` behind the end. */
  function Nth<T>(s: seq<T>, i: nat, none: T): T {
    if i < |s| then s[i] else none
  }

  lemma NthRemoved<T>(s: seq<T>, i: nat, j: nat, none: T)
    requires i < |s|
    ensures Nth(Removed(s, i), j, none) == Nth(s, if j < i then j else j + 1, none)
  {
  }

  /** The element after the first `x` in `s`, or `none`. */
  function NextIn<T(==)>(s: seq<T>, x: T, none: T): T {
    if |s| < 2 then none else if s[0] == x then s[1] else NextIn(s[1..], x, none)
  }

  /** The element before the first `x` that is not at the front of `s`, or `none`. */
  function PrevIn<T(==)>(s: seq<T>, x: T, none: T): T {
    if |s| < 2 then none else if s[1] == x then s[0] else PrevIn(s[1..], x, none)
  }

  predicate Injective<T(==)>(s: seq<T>) {
    forall i, j :: 0 <= i < j < |s| ==> s[i] != s[j]
  }

  lemma InjectiveRemoved<T>(s: seq<T>, k: nat)
    requires k < |s| && Injective(s)
    ensures Injective(Removed(s, k))
  {
    var r := Removed(s, k);
    forall i, j | 0 <= i < j < |r| ensures r[i] != r[j] {
      assert r[i] == s[if i < k then i else i + 1] && r[j] == s[if j < k then j else j + 1];
    }
  }

  lemma InjectiveConcat<T>(a: seq<T>, b: seq<T>)
    requires Injective(a) && Injective(b) && forall x :: x in a ==> x !in b
    ensures Injective(a + b)
  {
    var s := a + b;
    forall i, j | 0 <= i < j < |s| ensures s[i] != s[j] {
      if i < |a| <= j {
        assert s[i] in a && s[j] == b[j - |a|];
      }
    }
  }

  lemma InjectiveParts<T>(a: seq<T>, b: seq<T>)
    requires Injective(a + b)
    ensures Injective(a) && Injective(b) && forall x :: x in a ==> x !in b
  {
    var s := a + b;
    forall i, j | 0 <= i < |a| && 0 <= j < |b| ensures a[i] != b[j] {
      assert s[i] == a[i] && s[|a| + j] == b[j];
    }
    forall i, j | 0 <= i < j < |b| ensures b[i] != b[j] {
      assert s[|a| + i] == b[i] && s[|a| + j] == b[j];
    }
    forall i, j | 0 <= i < j < |a| ensures a[i] != a[j] {
      assert s[i] == a[i] && s[j] == a[j];
    }
  }

  lemma {:induction false} NeighboursAt<T>(s: seq<T>, k: nat, none: T)
    requires Injective(s) && k < |s|
    ensures NextIn(s, s[k], none) == if k + 1 < |s| then s[k + 1] else none
    ensures PrevIn(s, s[k], none) == if k > 0 then s[k - 1] else none
  {
    if |s| >= 2 {
      if k > 0 {
        NeighboursAt(s[1..], k - 1, none);
      } else {
        NotAhead(s[1..], s[0], none);
      }
    }
  }

  lemma {:induction false} NotAhead<T>(s: seq<T>, x: T, none: T)
    requires x !in s
    ensures PrevIn(s, x, none) == none
  {
    if |s| >= 2 {
      NotAhead(s[1..], x, none);
    }
  }

  /** Stepping forward and stepping back undo each other. */
  lemma NeighboursInverse<T>(s: seq<T>, x: T, none: T)
    requires Injective(s) && x in s && none !in s
    ensures var y := NextIn(s, x, none); y != none ==> y in s && PrevIn(s, y, none) == x
    ensures var y := PrevIn(s, x, none); y != none ==> y in s && NextIn(s, y, none) == x
  {
    var k :| 0 <= k < |s| && s[k] == x;
    NeighboursAt(s, k, none);
    if k + 1 < |s| {
      NeighboursAt(s, k + 1, none);
    }
    if k > 0 {
      NeighboursAt(s, k - 1, none);
    }
  }
}
