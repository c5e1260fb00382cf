/** The array engine: the first `index` slots of a fixed table, searched from the front. */
module KvArray {
  import opened CStrings
  import opened Sequences
  import opened Options
  import opened Pairs

  const ARRAY_SIZE := 1024

  /** A table entry; its two pointers are null until it is first written. */
  datatype Slot = Slot(key: Option<CString>, value: Option<CString>)

  class ArrayEngine {
    const table: array<Slot>
    var index: int
    ghost var pairs: seq<Pair>

    /** The first `index` slots hold `pairs`; what later slots hold is left over and never read. */
    ghost predicate Valid()
      reads `index, `pairs, table
    {
      && table.Length == ARRAY_SIZE && index == |pairs| <= ARRAY_SIZE && Unique(pairs)
      && forall i :: 0 <= i < |pairs| ==> table[i] == Slot(Some(pairs[i].0), Some(pairs[i].1))
    }

    ghost function Contents(): Contents
      requires Valid()
      reads `index, `pairs, table
    {
      ToMap(pairs)
    }

    constructor Create()
      ensures Valid() && Contents() == map[] && fresh(table)
    {
      table := new Slot[ARRAY_SIZE](i => Slot(None, None));
      index := 0;
      pairs := [];
    }

    method Exist(key: CString) returns (i: int)
      requires Valid()
      ensures i == -1 || 0 <= i < index
      ensures i == -1 <==> key !in Contents()
      ensures i != -1 ==> pairs[i] == (key, Contents()[key])
    {
      ToMapHas(pairs);
      i := 0;
      while i < index
        invariant 0 <= i <= index
        invariant forall j :: 0 <= j < i ==> pairs[j].0 != key
      {
        StrCmpEqual(table[i].key.value, key);
        if StrCmp(table[i].key.value, key) == 0 {
          return;
        }
        i := i + 1;
      }
      i := -1;
    }

    method Mod(key: CString, newValue: CString) returns (r: int)
      requires Valid()
      modifies `pairs, table
      ensures Valid()
      ensures if key in old(Contents())
        then r == 0 && Contents() == old(Contents())[key := newValue]
        else r == 1 && Contents() == old(Contents())
    {
      var i := Exist(key);
      if i == -1 {
        return 1;
      }
      ToMapUpdated(pairs, i, newValue);
      table[i] := table[i].(value := Some(newValue));
      pairs := pairs[i := (key, newValue)];
      r := 0;
    }

    /** A full table refuses every key, even one it holds. */
    method Set(key: CString, value: CString) returns (r: int)
      requires Valid()
      modifies `index, `pairs, table
      ensures Valid()
      ensures if |old(Contents())| == 1024
        then r == -1 && Contents() == old(Contents())
        else r == 0 && Contents() == old(Contents())[key := value]
    {
      hide ToMap;
      ToMapSize(pairs);
      if index == ARRAY_SIZE {
        return -1;
      }
      var i := Exist(key);
      if i != -1 {
        i := Mod(key, value);
        return 0;
      }
      ToMapHas(pairs);
      ToMapInserted(pairs, |pairs|, (key, value));
      table[index] := Slot(Some(key), Some(value));
      pairs := Inserted(pairs, |pairs|, (key, value));
      index := index + 1;
      r := 0;
    }

    method Get(key: CString) returns (value: Option<CString>)
      requires Valid()
      ensures value == if key in Contents() then Some(Contents()[key]) else None
    {
      var i := Exist(key);
      if i == -1 {
        return None;
      }
      value := table[i].value;
    }

    /** The slots behind the deleted one move forward by one place. */
    method Del(key: CString) returns (r: int)
      requires Valid()
      modifies `index, `pairs, table
      ensures Valid()
      ensures if key in old(Contents())
        then r == 0 && Contents() == old(Contents()) - {key}
        else r == -1 && Contents() == old(Contents())
      ensures r == 0 ==> exists i :: 0 <= i < |old(pairs)| && old(pairs)[i].0 == key && pairs == Removed(old(pairs), i)
    {
      hide ToMap;
      var i := Exist(key);
      if i == -1 {
        return -1;
      }
      ToMapRemoved(pairs, i);
      table[i] := Slot(None, None);
      var j := i;
      while j < index - 1
        invariant index == old(index) && pairs == old(pairs) && i <= j <= index - 1
        invariant forall k :: 0 <= k < i ==> table[k] == old(table[k])
        invariant forall k :: i <= k < j ==> table[k] == old(table[k + 1])
        invariant forall k :: j < k < index ==> table[k] == old(table[k])
      {
        table[j] := table[j + 1];
        j := j + 1;
      }
      pairs := Removed(pairs, i);
      index := index - 1;
      r := 0;
    }

    method Count() returns (r: int)
      requires Valid()
      ensures r == |Contents()|
    {
      ToMapSize(pairs);
      r := index;
    }
  }
}
