/** The hash engine: a fixed table of chains. */
module KvHash {
  import opened CStrings
  import opened Options
  import opened Pairs
  import opened Sequences

  const MAX_TABLE_SIZE := 1024

  /** A byte read through the signed `char` of the program. */
  function SignedChar(c: char): int
    requires 0 < c as int < 256
  {
    if c < 128 as char then c as int else c as int - 256
  }

  function HashSum(key: CString): int {
    if key == [] then 0 else HashSum(key[..|key| - 1]) + SignedChar(key[|key| - 1])
  }

  /** The remainder of C, which takes the sign of the dividend. */
  function Remainder(a: int, b: nat): int
    requires b > 0
  {
    if a >= 0 then a % b else -((-a) % b)
  }

  function HashOf(key: CString): int {
    Remainder(HashSum(key), MAX_TABLE_SIZE)
  }

  /** The key has a slot: the sum of its bytes as signed numbers is not negative or a multiple of the table size. */
  predicate Hashable(key: CString) {
    HashSum(key) >= 0 || HashSum(key) % MAX_TABLE_SIZE == 0
  }

  lemma NegativeMultiple(n: int)
    ensures n % MAX_TABLE_SIZE == 0 <==> -n % MAX_TABLE_SIZE == 0
  {
    var q, m := n / MAX_TABLE_SIZE, n % MAX_TABLE_SIZE;
    assert n == q * MAX_TABLE_SIZE + m;
    assert -n == (if m == 0 then -q else -q - 1) * MAX_TABLE_SIZE + (if m == 0 then 0 else MAX_TABLE_SIZE - m);
  }

  /** The program reads within the table exactly for the hashable keys. */
  lemma HashInTable(key: CString)
    ensures 0 <= HashOf(key) < MAX_TABLE_SIZE <==> Hashable(key)
  {
    hide HashSum;
    NegativeMultiple(-HashSum(key));
  }

  /** The slot is the remainder of the sum by 1024, with the sign of the sum; the sum is that of the signed bytes. */
  lemma HashMeans(key: CString, c: char)
    requires 0 < c as int < 256
    ensures HashSum([]) == 0 && HashSum(key + [c]) == HashSum(key) + if c as int < 128 then c as int else c as int - 256
    ensures exists q: int :: HashSum(key) == 1024 * q + HashOf(key)
    ensures -1024 < HashOf(key) < 1024
    ensures (HashSum(key) >= 0 ==> HashOf(key) >= 0) && (HashSum(key) <= 0 ==> HashOf(key) <= 0)
  {
    assert (key + [c])[..|key|] == key;
    hide HashSum;
    var s := HashSum(key);
    var q := if s >= 0 then s / 1024 else -((-s) / 1024);
    assert s == 1024 * q + HashOf(key);
  }

  /** A key without a slot: one character with the top bit set. */
  lemma NoSlot(key: CString)
    requires key == [128 as char]
    ensures HashOf(key) == -128 && !Hashable(key)
  {
    assert key[..0] == [];
    assert HashSum(key) == -128;
  }

  /**
   Keys of the characters 1 to 127 always have a slot, and for keys that fit the receive buffer the sum fits 32
   bits.
   */
  lemma {:induction false} HashSumRange(key: CString)
    ensures (forall i :: 0 <= i < |key| ==> key[i] < 128 as char) ==> Hashable(key)
    ensures -128 * |key| <= HashSum(key) <= 127 * |key|
    ensures |key| < 1024 ==> -0x8000_0000 <= HashSum(key) < 0x8000_0000
  {
    if key != [] {
      var init := key[..|key| - 1];
      HashSumRange(init);
      if forall i :: 0 <= i < |key| ==> key[i] < 128 as char {
        AsciiSum(key);
      }
    }
  }

  lemma {:induction false} AsciiSum(key: CString)
    requires forall i :: 0 <= i < |key| ==> key[i] < 128 as char
    ensures HashSum(key) >= 0
  {
    if key != [] {
      AsciiSum(key[..|key| - 1]);
    }
  }

  class HashNode {
    var key: CString
    var value: CString
    var next: HashNode?

    constructor Create(k: CString, v: CString)
      ensures key == k && value == v && next == null
    {
      key, value, next := k, v, null;
    }
  }

  method Hash(key: CString) returns (r: int)
    ensures r == HashOf(key)
  {
    var sum, i := 0, 0;
    while i < |key|
      invariant 0 <= i <= |key| && sum == HashSum(key[..i])
    {
      assert key[..i + 1][..i] == key[..i];
      sum := sum + SignedChar(key[i]);
      i := i + 1;
    }
    assert key[..|key|] == key;
    r := Remainder(sum, MAX_TABLE_SIZE);
  }

  /** The pairs of every slot, in the order of its chain. */
  type Rows = seq<seq<Pair>>

  type Chains = seq<seq<HashNode>>

  ghost predicate Has(rows: Rows, key: CString) {
    var b := HashOf(key);
    0 <= b < |rows| && exists i :: 0 <= i < |rows[b]| && rows[b][i].0 == key
  }

  /** Every key stands in the slot of its hash and only once, and the rows hold exactly the map `m`. */
  ghost predicate Hold(rows: Rows, m: Contents) {
    && (forall b, i :: 0 <= b < |rows| && 0 <= i < |rows[b]| ==>
      HashOf(rows[b][i].0) == b && rows[b][i].0 in m && m[rows[b][i].0] == rows[b][i].1)
    && (forall b :: 0 <= b < |rows| ==> Unique(rows[b]))
    && forall key :: key in m ==> Has(rows, key)
  }

  lemma HoldUpdated(rows: Rows, m: Contents, b: nat, i: nat, value: CString)
    requires Hold(rows, m) && b < |rows| && i < |rows[b]|
    ensures var key := rows[b][i].0; key in m && Hold(rows[b := rows[b][i := (key, value)]], m[key := value])
  {
    hide HashOf;
    var key := rows[b][i].0;
    var r: Rows := rows[b := rows[b][i := (key, value)]];
    assert forall c, j :: 0 <= c < |r| && 0 <= j < |r[c]| ==> r[c][j].0 == rows[c][j].0;
    forall k | k in m[key := value] ensures Has(r, k) {
      var h := HashOf(k);
      assert Has(rows, k);
      var j :| 0 <= j < |rows[h]| && rows[h][j].0 == k;
      assert r[h][j].0 == k;
    }
  }

  lemma HoldInserted(rows: Rows, m: Contents, key: CString, value: CString)
    requires Hold(rows, m) && key !in m && 0 <= HashOf(key) < |rows|
    ensures var b := HashOf(key); Hold(rows[b := Inserted(rows[b], 0, (key, value))], m[key := value])
  {
    hide HashOf;
    var b := HashOf(key);
    var r: Rows := rows[b := Inserted(rows[b], 0, (key, value))];
    UniqueInserted(rows[b], 0, (key, value));
    forall k | k in m[key := value] ensures Has(r, k) {
      if k == key {
        assert r[b][0].0 == key;
      } else {
        assert Has(rows, k);
        var j :| 0 <= j < |rows[HashOf(k)]| && rows[HashOf(k)][j].0 == k;
        assert r[HashOf(k)][if HashOf(k) == b then j + 1 else j].0 == k;
      }
    }
  }

  lemma HoldRemoved(rows: Rows, m: Contents, b: nat, i: nat)
    requires Hold(rows, m) && b < |rows| && i < |rows[b]|
    ensures rows[b][i].0 in m && Hold(rows[b := Removed(rows[b], i)], m - {rows[b][i].0})
  {
    hide HashOf;
    var key := rows[b][i].0;
    var r: Rows := rows[b := Removed(rows[b], i)];
    forall c, j | 0 <= c < |r| && 0 <= j < |r[c]|
      ensures HashOf(r[c][j].0) == c && r[c][j].0 in m - {key} && m[r[c][j].0] == r[c][j].1
    {
      var k := if c == b && j >= i then j + 1 else j;
      assert r[c][j] == rows[c][k];
    }
    forall k | k in m - {key} ensures Has(r, k) {
      assert Has(rows, k);
      var j :| 0 <= j < |rows[HashOf(k)]| && rows[HashOf(k)][j].0 == k;
      assert r[HashOf(k)][if HashOf(k) == b && j > i then j - 1 else j].0 == k;
    }
  }

  class HashEngine {
    const nodes: array<HashNode?>
    var count: int
    ghost var chains: Chains
    ghost var rows: Rows
    ghost var all: set<HashNode>
    ghost var contents: Contents

    /**
     The node at place `i` of the slot `b` of the chains `cs` carries what the rows `rs` say and leads to the
     next.
     */
    ghost predicate PlacedIn(cs: Chains, rs: Rows, b: nat, i: nat)
      requires b < |cs| && b < |rs| && i < |cs[b]| && i < |rs[b]|
      reads `all, all
    {
      var node := cs[b][i];
      node in all && node.next == Nth(cs[b], i + 1, null) && (node.key, node.value) == rs[b][i]
    }

    /** The chains `cs` hold the rows `rs`. */
    ghost predicate LinkedAs(cs: Chains, rs: Rows)
      reads `all, nodes, all
    {
      && nodes.Length == |cs| == |rs| == MAX_TABLE_SIZE
      && (forall b :: 0 <= b < MAX_TABLE_SIZE ==> nodes[b] == Nth(cs[b], 0, null) && |cs[b]| == |rs[b]|)
      && forall b, i :: 0 <= b < MAX_TABLE_SIZE && 0 <= i < |cs[b]| ==> PlacedIn(cs, rs, b, i)
    }

    ghost predicate Linked()
      reads `chains, `rows, `all, nodes, all
    {
      LinkedAs(chains, rows)
    }

    ghost predicate Valid()
      reads this, nodes, all
    {
      Linked() && Hold(rows, contents) && count == |contents|
    }

    constructor Create()
      ensures Valid() && contents == map[] && fresh(nodes) && all == {}
    {
      nodes := new HashNode?[MAX_TABLE_SIZE](i => null);
      count := 0;
      chains, rows := seq(MAX_TABLE_SIZE, i => []), seq(MAX_TABLE_SIZE, i => []);
      all, contents := {}, map[];
    }

    /** No node stands twice in the table, and no key stands in two nodes. */
    lemma KeysApart(b: nat, i: nat, c: nat, j: nat)
      requires Valid() && b < MAX_TABLE_SIZE && c < MAX_TABLE_SIZE && i < |chains[b]| && j < |chains[c]|
      requires b != c || i != j
      ensures chains[b][i] != chains[c][j] && chains[b][i].key != chains[c][j].key
    {
      hide HashOf;
      assert PlacedIn(chains, rows, b, i) && PlacedIn(chains, rows, c, j);
    }

    lemma Elsewhere(b: nat, i: nat)
      requires Valid() && b < MAX_TABLE_SIZE && i < |chains[b]|
      ensures forall c, j :: 0 <= c < MAX_TABLE_SIZE && 0 <= j < |chains[c]| && (c != b || j != i) ==>
        chains[c][j] != chains[b][i]
    {
      hide HashOf, Hold;
      forall c, j | 0 <= c < MAX_TABLE_SIZE && 0 <= j < |chains[c]| && (c != b || j != i)
        ensures chains[c][j] != chains[b][i]
      {
        KeysApart(b, i, c, j);
      }
    }

    lemma Absent(key: CString)
      requires Valid() && Hashable(key)
      requires 0 <= HashOf(key) < MAX_TABLE_SIZE
      requires var row := rows[HashOf(key)]; forall i :: 0 <= i < |row| ==> row[i].0 != key
      ensures key !in contents
    {
      hide HashOf;
      assert key in contents ==> Has(rows, key);
    }

    method Get(key: CString) returns (value: Option<CString>)
      requires Valid() && Hashable(key)
      ensures value == if key in contents then Some(contents[key]) else None
    {
      HashInTable(key);
      hide HashOf, Hashable;
      var idx := Hash(key);
      var node := nodes[idx];
      ghost var i := 0;
      while node != null
        invariant 0 <= i <= |chains[idx]| && node == Nth(chains[idx], i, null)
        invariant forall j :: 0 <= j < i ==> rows[idx][j].0 != key
        decreases |chains[idx]| - i
      {
        assert PlacedIn(chains, rows, idx, i);
        StrCmpEqual(node.key, key);
        if StrCmp(node.key, key) == 0 {
          return Some(node.value);
        }
        node := node.next;
        i := i + 1;
      }
      Absent(key);
      value := None;
    }

    method Exist(key: CString) returns (r: int)
      requires Valid() && Hashable(key)
      ensures r == if key in contents then 0 else -1
    {
      var value := Get(key);
      r := if value.Some? then 0 else -1;
    }

    method SetValue(node: HashNode, newValue: CString, ghost b: nat, ghost i: nat)
      requires Valid() && b < MAX_TABLE_SIZE && i < |chains[b]| && node == chains[b][i]
      modifies node`value, this`contents, this`rows
      ensures Valid() && node.key in old(contents) && contents == old(contents)[node.key := newValue]
    {
      hide HashOf, Hold;
      assert PlacedIn(chains, rows, b, i);
      HoldUpdated(rows, contents, b, i, newValue);
      Elsewhere(b, i);
      node.value := newValue;
      contents := contents[node.key := newValue];
      rows := rows[b := rows[b][i := (node.key, newValue)]];
      forall c, j | 0 <= c < MAX_TABLE_SIZE && 0 <= j < |chains[c]|
        ensures PlacedIn(chains, rows, c, j)
      {
        assert old(PlacedIn(chains, rows, c, j));
      }
    }

    method Mod(key: CString, newValue: CString) returns (r: int)
      requires Valid() && Hashable(key)
      modifies all`value, this`contents, this`rows
      ensures Valid()
      ensures if key in old(contents)
        then r == 0 && contents == old(contents)[key := newValue]
        else r == -1 && contents == old(contents)
    {
      HashInTable(key);
      hide HashOf, Hashable, Hold;
      var idx := Hash(key);
      var node := nodes[idx];
      ghost var i := 0;
      while node != null
        invariant 0 <= i <= |chains[idx]| && node == Nth(chains[idx], i, null)
        invariant forall j :: 0 <= j < i ==> rows[idx][j].0 != key
        decreases |chains[idx]| - i
        modifies {}
      {
        assert PlacedIn(chains, rows, idx, i);
        StrCmpEqual(node.key, key);
        if StrCmp(node.key, key) == 0 {
          break;
        }
        node := node.next;
        i := i + 1;
      }
      hide LinkedAs;
      if node == null {
        Absent(key);
        return -1;
      }
      SetValue(node, newValue, idx, i);
      r := 0;
    }

    method Put(key: CString, value: CString) returns (r: int)
      requires Valid() && Hashable(key)
      modifies this, nodes, all`value
      ensures Valid() && r == 0 && contents == old(contents)[key := value]
      ensures forall n :: n in all && n !in old(all) ==> fresh(n)
    {
      HashInTable(key);
      hide HashOf, Hashable, Hold, Linked;
      var idx := Hash(key);
      r := Exist(key);
      if r != -1 {
        r := Mod(key, value);
        return;
      }
      var node := new HashNode.Create(key, value);
      PutFront(node, idx);
      r := 0;
    }

    /** A new node becomes the head of its chain. */
    method PutFront(node: HashNode, idx: nat)
      requires Valid() && idx < MAX_TABLE_SIZE && node !in all && HashOf(node.key) == idx && node.key !in contents
      modifies this, nodes, node`next
      ensures Valid() && contents == old(contents)[node.key := node.value] && all == old(all) + {node}
    {
      hide HashOf, Hold;
      HoldInserted(rows, contents, node.key, node.value);
      PutLinks(node, idx);
      hide LinkedAs;
      count := count + 1;
      contents := contents[node.key := node.value];
    }

    method PutLinks(node: HashNode, idx: nat)
      requires Linked() && idx < MAX_TABLE_SIZE && node !in all
      modifies this`chains, this`rows, this`all, nodes, node`next
      ensures Linked() && rows == old(rows)[idx := Inserted(old(rows)[idx], 0, (node.key, node.value))]
      ensures all == old(all) + {node}
    {
      node.next := nodes[idx];
      nodes[idx] := node;
      all := all + {node};
      chains := chains[idx := Inserted(chains[idx], 0, node)];
      rows := rows[idx := Inserted(rows[idx], 0, (node.key, node.value))];
      forall c, j | 0 <= c < MAX_TABLE_SIZE && 0 <= j < |chains[c]|
        ensures PlacedIn(chains, rows, c, j)
      {
        if c == idx && j > 0 {
          assert old(PlacedIn(chains, rows, c, j - 1));
        } else if c != idx {
          assert old(PlacedIn(chains, rows, c, j));
        }
      }
    }

    /** The head of the chain `idx` leaves. */
    method DropHead(idx: nat)
      requires Valid() && idx < MAX_TABLE_SIZE && |chains[idx]| > 0
      modifies this`chains, this`rows, nodes
      ensures Linked() && rows == old(rows)[idx := Removed(old(rows)[idx], 0)]
    {
      hide HashOf, Hold;
      assert PlacedIn(chains, rows, idx, 0);
      var tmp := nodes[idx].next;
      nodes[idx] := tmp;
      chains := chains[idx := Removed(chains[idx], 0)];
      rows := rows[idx := Removed(rows[idx], 0)];
      forall c, j | 0 <= c < MAX_TABLE_SIZE && 0 <= j < |chains[c]|
        ensures PlacedIn(chains, rows, c, j)
      {
        assert old(PlacedIn(chains, rows, c, if c == idx then j + 1 else j));
      }
    }

    /** Only the node before place `i` of the chain `idx` leads past the node at that place. */
    ghost predicate Bypassed(cs: Chains, rs: Rows, idx: nat, i: nat)
      requires idx < |cs|
      reads `all, nodes, all
    {
      && nodes.Length == |cs| == |rs| == MAX_TABLE_SIZE && 0 < i < |cs[idx]|
      && (forall b :: 0 <= b < MAX_TABLE_SIZE ==> nodes[b] == Nth(cs[b], 0, null) && |cs[b]| == |rs[b]|)
      && cs[idx][i - 1] in all && cs[idx][i - 1].next == Nth(cs[idx], i + 1, null)
      && (cs[idx][i - 1].key, cs[idx][i - 1].value) == rs[idx][i - 1]
      && forall b, k :: 0 <= b < MAX_TABLE_SIZE && 0 <= k < |cs[b]| && (b != idx || k != i - 1) ==>
        PlacedIn(cs, rs, b, k)
    }

    lemma BypassedLinked(cs: Chains, rs: Rows, idx: nat, i: nat)
      requires idx < |cs| && Bypassed(cs, rs, idx, i)
      ensures LinkedAs(cs[idx := Removed(cs[idx], i)], rs[idx := Removed(rs[idx], i)])
    {
      var cs', rs' := cs[idx := Removed(cs[idx], i)], rs[idx := Removed(rs[idx], i)];
      NthRemoved<HashNode?>(cs[idx], i, 0, null);
      forall b, j | 0 <= b < MAX_TABLE_SIZE && 0 <= j < |cs'[b]| ensures PlacedIn(cs', rs', b, j) {
        NthRemoved<HashNode?>(cs[idx], i, j + 1, null);
        var k := if b == idx && j >= i then j + 1 else j;
        assert cs'[b][j] == cs[b][k] && rs'[b][j] == rs[b][k];
        assert b != idx || k != i - 1 ==> PlacedIn(cs, rs, b, k);
      }
    }

    method Bypass(cur: HashNode, idx: nat, ghost i: nat)
      requires Valid() && idx < MAX_TABLE_SIZE && 0 < i < |chains[idx]| && cur == chains[idx][i - 1]
      modifies cur`next
      ensures Bypassed(chains, rows, idx, i)
    {
      hide HashOf, Hold;
      Elsewhere(idx, i - 1);
      assert PlacedIn(chains, rows, idx, i - 1) && PlacedIn(chains, rows, idx, i);
      var tmp := cur.next;
      cur.next := tmp.next;
      forall b, k | 0 <= b < MAX_TABLE_SIZE && 0 <= k < |chains[b]| && (b != idx || k != i - 1)
        ensures PlacedIn(chains, rows, b, k)
      {
        assert chains[b][k] != cur && old(PlacedIn(chains, rows, b, k));
      }
    }

    /** The node behind `cur`, at place `i` of the chain `idx`, leaves. */
    method DropNext(cur: HashNode, idx: nat, ghost i: nat)
      requires Valid() && idx < MAX_TABLE_SIZE && 0 < i < |chains[idx]| && cur == chains[idx][i - 1]
      modifies this`chains, this`rows, cur`next
      ensures Linked() && rows == old(rows)[idx := Removed(old(rows)[idx], i)]
    {
      hide HashOf, Hold, Bypassed;
      Bypass(cur, idx, i);
      BypassedLinked(chains, rows, idx, i);
      hide LinkedAs;
      chains := chains[idx := Removed(chains[idx], i)];
      rows := rows[idx := Removed(rows[idx], i)];
    }

    /** The node before the one with this key, which is not the head, or the last node. */
    method Before(key: CString, head: HashNode, idx: nat) returns (cur: HashNode, ghost i: nat)
      requires Valid() && idx < MAX_TABLE_SIZE && chains[idx] != [] && head == chains[idx][0] && rows[idx][0].0 != key
      ensures 1 <= i <= |chains[idx]| && cur == chains[idx][i - 1] && cur in all
      ensures cur.next == Nth(chains[idx], i, null)
      ensures if i < |chains[idx]|
        then rows[idx][i].0 == key
        else forall j :: 0 <= j < |rows[idx]| ==> rows[idx][j].0 != key
    {
      hide HashOf, Hold;
      cur, i := head, 1;
      assert PlacedIn(chains, rows, idx, 0);
      while cur.next != null
        invariant 1 <= i <= |chains[idx]| && cur == chains[idx][i - 1] && cur in all
        invariant cur.next == Nth(chains[idx], i, null)
        invariant forall j :: 0 <= j < i ==> rows[idx][j].0 != key
        decreases |chains[idx]| - i
      {
        assert PlacedIn(chains, rows, idx, i);
        StrCmpEqual(cur.next.key, key);
        if StrCmp(cur.next.key, key) == 0 {
          break;
        }
        cur := cur.next;
        i := i + 1;
      }
    }

    /** What the program sees at the slot `idx`. */
    lemma Front(idx: nat)
      requires Linked() && idx < MAX_TABLE_SIZE
      ensures nodes.Length == |chains| == |rows| == MAX_TABLE_SIZE && |rows[idx]| == |chains[idx]|
      ensures nodes[idx] == null <==> chains[idx] == []
      ensures chains[idx] != [] ==> nodes[idx] == chains[idx][0] && nodes[idx].key == rows[idx][0].0
    {
      assert chains[idx] != [] ==> PlacedIn(chains, rows, idx, 0);
    }

    method Delete(key: CString) returns (r: int)
      requires Valid() && Hashable(key)
      modifies this`count, this`chains, this`rows, this`contents, nodes, all`next
      ensures Valid()
      ensures if key in old(contents)
        then r == 0 && contents == old(contents) - {key}
        else r == -1 && contents == old(contents)
    {
      HashInTable(key);
      hide HashOf, Hashable, Hold, Linked;
      var idx := Hash(key);
      Front(idx);
      var head := nodes[idx];
      if head == null {
        Absent(key);
        return -1;
      }
      StrCmpEqual(head.key, key);
      if StrCmp(head.key, key) == 0 {
        HoldRemoved(rows, contents, idx, 0);
        DropHead(idx);
        count, contents := count - 1, contents - {key};
        return 0;
      }
      ghost var i;
      var cur: HashNode;
      cur, i := Before(key, head, idx);
      if cur.next == null {
        Absent(key);
        return -1;
      }
      HoldRemoved(rows, contents, idx, i);
      DropNext(cur, idx, i);
      count, contents := count - 1, contents - {key};
      r := 0;
    }

    method Count() returns (r: int)
      requires Valid()
      ensures r == |contents|
    {
      r := count;
    }
  }
}
