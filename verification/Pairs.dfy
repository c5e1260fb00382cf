/** Sequences of key-value pairs and the finite map they stand for. */
module Pairs {
  import opened CStrings
  import opened Sequences

  type Pair = (CString, CString)

  type Contents = map<CString, CString>

  /** No key occurs twice. */
  predicate Unique(p: seq<Pair>) {
    forall i, j :: 0 <= i < j < |p| ==> p[i].0 != p[j].0
  }

  function ToMap(p: seq<Pair>): Contents
    requires Unique(p)
  {
    map i | 0 <= i < |p| :: p[i].0 := p[i].1
  }

  lemma ToMapHas(p: seq<Pair>)
    requires Unique(p)
    ensures forall i :: 0 <= i < |p| ==> p[i].0 in ToMap(p) && ToMap(p)[p[i].0] == p[i].1
    ensures forall k :: k in ToMap(p) ==> exists i :: 0 <= i < |p| && p[i].0 == k
  {
  }

  /** A map is what a sequence stands for when it has the pairs of the sequence and no others. */
  lemma ToMapUnique(p: seq<Pair>, m: Contents)
    requires Unique(p)
    requires forall i :: 0 <= i < |p| ==> p[i].0 in m && m[p[i].0] == p[i].1
    requires forall k :: k in m ==> exists i :: 0 <= i < |p| && p[i].0 == k
    ensures ToMap(p) == m
  {
    ToMapHas(p);
  }

  lemma ToMapUpdated(p: seq<Pair>, k: nat, value: CString)
    requires k < |p| && Unique(p)
    ensures var q := p[k := (p[k].0, value)]; Unique(q) && ToMap(q) == ToMap(p)[p[k].0 := value]
  {
    hide ToMap;
    var q, m := p[k := (p[k].0, value)], ToMap(p)[p[k].0 := value];
    assert forall i :: 0 <= i < |q| ==> q[i].0 == p[i].0;
    ToMapHas(p);
    forall i | 0 <= i < |q| ensures q[i].0 in m && m[q[i].0] == q[i].1 {
      if i != k {
        assert p[i].0 != p[k].0;
      }
    }
    forall key | key in m ensures exists i :: 0 <= i < |q| && q[i].0 == key {
      var i :| 0 <= i < |p| && p[i].0 == key;
      assert q[i].0 == key;
    }
    ToMapUnique(q, m);
  }

  lemma PutBack(m: Contents, m': Contents, key: CString)
    requires key in m && m' == m - {key}
    ensures key !in m' && m == m'[key := m[key]]
  {
  }

  lemma ToMapRemoved(p: seq<Pair>, k: nat)
    requires k < |p| && Unique(p)
    ensures Unique(Removed(p, k)) && ToMap(Removed(p, k)) == ToMap(p) - {p[k].0}
  {
    hide ToMap;
    var q, m := Removed(p, k), ToMap(p) - {p[k].0};
    assert Unique(q);
    ToMapHas(p);
    forall i | 0 <= i < |q| ensures q[i].0 in m && m[q[i].0] == q[i].1 {
      var j := if i < k then i else i + 1;
      assert q[i] == p[j] && p[j].0 != p[k].0;
    }
    forall key | key in m ensures exists i :: 0 <= i < |q| && q[i].0 == key {
      var i :| 0 <= i < |p| && p[i].0 == key;
      assert q[if i < k then i else i - 1].0 == key;
    }
    ToMapUnique(q, m);
  }

  lemma ToMapSplit(p: seq<Pair>, k: nat)
    requires k < |p| && Unique(p)
    ensures Unique(Removed(p, k)) && p[k].0 !in ToMap(Removed(p, k))
    ensures ToMap(p) == ToMap(Removed(p, k))[p[k].0 := p[k].1]
  {
    ToMapHas(p);
    ToMapRemoved(p, k);
    PutBack(ToMap(p), ToMap(Removed(p, k)), p[k].0);
  }

  lemma UniqueInserted(p: seq<Pair>, k: nat, x: Pair)
    requires k <= |p| && Unique(p) && forall i :: 0 <= i < |p| ==> p[i].0 != x.0
    ensures Unique(Inserted(p, k, x))
  {
  }

  lemma ToMapInserted(p: seq<Pair>, k: nat, x: Pair)
    requires k <= |p| && Unique(p) && forall i :: 0 <= i < |p| ==> p[i].0 != x.0
    ensures Unique(Inserted(p, k, x)) && x.0 !in ToMap(p)
    ensures ToMap(Inserted(p, k, x)) == ToMap(p)[x.0 := x.1]
  {
    ToMapHas(p);
    UniqueInserted(p, k, x);
    RemovedInserted(p, k, x);
    ToMapSplit(Inserted(p, k, x), k);
  }

  lemma {:induction false} ToMapSize(p: seq<Pair>)
    requires Unique(p)
    ensures |ToMap(p)| == |p|
  {
    if p != [] {
      ToMapSplit(p, |p| - 1);
      ToMapSize(Removed(p, |p| - 1));
    }
  }
}
