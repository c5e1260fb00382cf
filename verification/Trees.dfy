/**
 Binary trees and trees with a hole, shared by every tree algorithm of the model.

 A tree carries a tag in every node (the colour, for red-black trees) and an item (the node object of
 the program's heap).  A `Context` is the part of a tree that surrounds one subtree, written from the
 hole upwards, so that a loop that climbs or descends through parent links is described by a pair of a
 context and the tree in its hole.
 */
module Trees {
  import opened Sequences

  datatype Side = Left | Right
  {
    function Other(): Side {
      if this == Left then Right else Left
    }
  }

  datatype Tree<A, N> = Leaf | Node(tag: A, left: Tree<A, N>, item: N, right: Tree<A, N>)

  /** `Hole(s, a, n, sib, up)`: the hole is the child on side `s` of `n`, whose other child is `sib`. */
  datatype Context<A, N> = Top | Hole(side: Side, tag: A, item: N, sib: Tree<A, N>, up: Context<A, N>)

  /** The node whose child on side `s` is `near` and whose other child is `far`. */
  function Make<A, N>(s: Side, a: A, near: Tree<A, N>, n: N, far: Tree<A, N>): Tree<A, N> {
    match s
    case Left => Node(a, near, n, far)
    case Right => Node(a, far, n, near)
  }

  function Child<A, N>(s: Side, t: Tree<A, N>): Tree<A, N>
    requires t.Node?
  {
    if s == Left then t.left else t.right
  }

  /** The tree one level up from the hole, once `t` is put into it. */
  function Grow<A, N>(c: Context<A, N>, t: Tree<A, N>): Tree<A, N>
    requires c.Hole?
  {
    Make(c.side, c.tag, t, c.item, c.sib)
  }

  /** The hole moved to the sibling of the hole. */
  function Across<A, N>(c: Context<A, N>, t: Tree<A, N>): (r: Context<A, N>)
    requires c.Hole?
    ensures r.Hole? && Grow(r, c.sib) == Grow(c, t)
  {
    Hole(c.side.Other(), c.tag, c.item, t, c.up)
  }

  /** The hole moved to the child on side `s` of the tree in the hole. */
  function Below<A, N>(s: Side, c: Context<A, N>, t: Tree<A, N>): (r: Context<A, N>)
    requires t.Node?
    ensures r.Hole? && Grow(r, Child(s, t)) == t
  {
    Hole(s, t.tag, t.item, Child(s.Other(), t), c)
  }

  function Plug<A, N>(c: Context<A, N>, t: Tree<A, N>): Tree<A, N>
    decreases c
  {
    if c.Top? then t else Plug(c.up, Grow(c, t))
  }

  function Depth<A, N>(c: Context<A, N>): nat {
    if c.Top? then 0 else 1 + Depth(c.up)
  }

  function Height<A, N>(t: Tree<A, N>): nat {
    if t.Leaf? then 0
    else if Height(t.left) < Height(t.right) then 1 + Height(t.right) else 1 + Height(t.left)
  }

  function Size<A, N>(t: Tree<A, N>): nat {
    if t.Leaf? then 0 else Size(t.left) + 1 + Size(t.right)
  }

  /** The items from left to right. */
  function InOrder<A, N>(t: Tree<A, N>): seq<N> {
    if t.Leaf? then [] else InOrder(t.left) + [t.item] + InOrder(t.right)
  }

  /** What stands to the left of the hole. */
  function Before<A, N>(c: Context<A, N>): seq<N> {
    if c.Top? then []
    else if c.side == Left then Before(c.up)
    else Before(c.up) + InOrder(c.sib) + [c.item]
  }

  /** What stands to the right of the hole. */
  function After<A, N>(c: Context<A, N>): seq<N> {
    if c.Top? then []
    else if c.side == Right then After(c.up)
    else [c.item] + InOrder(c.sib) + After(c.up)
  }

  function Items<A, N>(t: Tree<A, N>): set<N> {
    if t.Leaf? then {} else Items(t.left) + {t.item} + Items(t.right)
  }

  function Around<A, N>(c: Context<A, N>): set<N> {
    if c.Top? then {} else {c.item} + Items(c.sib) + Around(c.up)
  }

  /** No item occurs twice in `t`. */
  predicate Distinct<A, N(==)>(t: Tree<A, N>) {
    t.Node? ==>
      && t.item !in Items(t.left) && t.item !in Items(t.right) && Items(t.left) !! Items(t.right)
      && Distinct(t.left) && Distinct(t.right)
  }

  /** No item occurs twice in `c`. */
  predicate DistinctAround<A, N(==)>(c: Context<A, N>) {
    c.Hole? ==>
      && c.item !in Items(c.sib) && c.item !in Around(c.up) && Items(c.sib) !! Around(c.up)
      && Distinct(c.sib) && DistinctAround(c.up)
  }

  /** No item occurs twice in the tree that `t` in `c` makes up. */
  predicate Separate<A, N(==)>(c: Context<A, N>, t: Tree<A, N>) {
    Distinct(t) && DistinctAround(c) && Items(t) !! Around(c)
  }

  lemma Regroup<T>(a: seq<T>, b: seq<T>, c: seq<T>, d: seq<T>, e: seq<T>)
    ensures a + (b + c + d) + e == a + b + (c + d + e) == (a + b + c) + d + e
  {
  }

  lemma {:induction false} PlugInOrder<A, N>(c: Context<A, N>, t: Tree<A, N>)
    ensures InOrder(Plug(c, t)) == Before(c) + InOrder(t) + After(c)
    decreases c
  {
    if c.Hole? {
      PlugInOrder(c.up, Grow(c, t));
      if c.side == Left {
        Regroup(Before(c.up), InOrder(t), [c.item], InOrder(c.sib), After(c.up));
      } else {
        Regroup(Before(c.up), InOrder(c.sib), [c.item], InOrder(t), After(c.up));
      }
    }
  }

  lemma EmptyHole<A, N>(c: Context<A, N>)
    ensures InOrder(Plug(c, Leaf)) == Before(c) + After(c)
  {
    PlugInOrder(c, Leaf);
    hide Plug, Before, After;
  }

  lemma HoleIndex<A, N>(c: Context<A, N>, t: Tree<A, N>, i: nat)
    requires i < |InOrder(t)|
    ensures |Before(c)| + i < |InOrder(Plug(c, t))| && InOrder(Plug(c, t))[|Before(c)| + i] == InOrder(t)[i]
  {
    PlugInOrder(c, t);
  }

  /** A node without left child, behind the same items as the tree of another hole, is the first of that tree. */
  lemma FirstInHole<A, N>(c: Context<A, N>, t: Tree<A, N>, d: Context<A, N>, u: Tree<A, N>)
    requires Plug(c, t) == Plug(d, u) && Before(c) == Before(d) && t.Node? && t.left.Leaf?
    ensures InOrder(u) + After(d) == [t.item] + InOrder(t.right) + After(c)
  {
    PlugInOrder(c, t);
    PlugInOrder(d, u);
    NoLeft(t);
    hide Plug, Before, After, InOrder;
    SameEnd(Before(c), InOrder(t), After(c), InOrder(u), After(d));
  }

  lemma NoLeft<A, N>(t: Tree<A, N>)
    requires t.Node? && t.left.Leaf?
    ensures InOrder(t) == [t.item] + InOrder(t.right)
  {
  }

  lemma {:induction false} InOrderMember<A, N>(t: Tree<A, N>, n: N)
    ensures n in InOrder(t) <==> n in Items(t)
  {
    if t.Node? {
      InOrderMember(t.left, n);
      InOrderMember(t.right, n);
    }
  }

  lemma {:induction false} InOrderLength<A, N>(t: Tree<A, N>)
    ensures |InOrder(t)| == Size(t)
  {
    if t.Node? {
      InOrderLength(t.left);
      InOrderLength(t.right);
    }
  }

  /** A distinct tree lists every item once. */
  lemma {:induction false} InOrderInjective<A, N>(t: Tree<A, N>)
    requires Distinct(t)
    ensures Injective(InOrder(t))
  {
    if t.Node? {
      InOrderInjective(t.left);
      InOrderInjective(t.right);
      InOrderMember(t.left, t.item);
      InjectiveConcat(InOrder(t.left), [t.item]);
      forall n | n in InOrder(t.left) + [t.item] ensures n !in InOrder(t.right) {
        InOrderMember(t.left, n);
        InOrderMember(t.right, n);
      }
      InjectiveConcat(InOrder(t.left) + [t.item], InOrder(t.right));
    }
  }

  /** Lifts the child on side `s` above its parent. */
  function Rotate<A, N>(s: Side, t: Tree<A, N>): Tree<A, N>
    requires t.Node? && Child(s, t).Node?
  {
    var k := Child(s, t);
    Make(s, k.tag, Child(s, k), k.item, Make(s, t.tag, Child(s.Other(), k), t.item, Child(s.Other(), t)))
  }

  lemma RotateInOrder<A, N>(s: Side, t: Tree<A, N>)
    requires t.Node? && Child(s, t).Node?
    ensures InOrder(Rotate(s, t)) == InOrder(t)
  {
    var k := Child(s, t);
    if s == Left {
      Regroup(InOrder(k.left), [k.item], InOrder(k.right), [t.item], InOrder(t.right));
    } else {
      Regroup(InOrder(t.left), [t.item], InOrder(k.left), [k.item], InOrder(k.right));
    }
  }

  lemma RotateItems<A, N>(s: Side, t: Tree<A, N>)
    requires t.Node? && Child(s, t).Node?
    ensures Items(Rotate(s, t)) == Items(t)
    ensures Distinct(Rotate(s, t)) <==> Distinct(t)
  {
    match s
    case Left =>
    case Right =>
  }

  /** Moving the hole one level up changes neither the tree nor its distinctness. */
  lemma GrowSeparate<A, N>(c: Context<A, N>, t: Tree<A, N>)
    requires c.Hole?
    ensures Plug(c, t) == Plug(c.up, Grow(c, t))
    ensures Items(Grow(c, t)) + Around(c.up) == Items(t) + Around(c)
    ensures Separate(c, t) <==> Separate(c.up, Grow(c, t))
  {
  }

  lemma {:induction false} PlugSeparate<A, N>(c: Context<A, N>, t: Tree<A, N>)
    ensures Items(Plug(c, t)) == Items(t) + Around(c)
    ensures Separate(c, t) <==> Distinct(Plug(c, t))
    decreases c
  {
    if c.Hole? {
      GrowSeparate(c, t);
      PlugSeparate(c.up, Grow(c, t));
    }
  }

  /** What is left of a tree with at most one child once its root is taken out. */
  function Rest<A, N>(t: Tree<A, N>): Tree<A, N>
    requires t.Node?
  {
    if t.left.Node? then t.left else t.right
  }

  predicate OneChild<A, N>(t: Tree<A, N>) {
    t.Node? && (t.left.Leaf? || t.right.Leaf?)
  }

  lemma SplicedItems<A, N>(c: Context<A, N>, t: Tree<A, N>)
    requires Distinct(Plug(c, t)) && OneChild(t)
    ensures Separate(c, t) && Separate(c, Rest(t))
    ensures Distinct(Plug(c, Rest(t))) && Items(Plug(c, Rest(t))) == Items(Plug(c, t)) - {t.item}
  {
    PlugSeparate(c, t);
    assert Items(t) == Items(Rest(t)) + {t.item};
    PlugSeparate(c, Rest(t));
  }

  /** What stands on either side of the node in the hole. */
  lemma NodeOrder<A, N>(c: Context<A, N>, t: Tree<A, N>)
    requires t.Node?
    ensures InOrder(Plug(c, t)) == (Before(c) + InOrder(t.left)) + [t.item] + (InOrder(t.right) + After(c))
  {
    PlugInOrder(c, t);
    Regroup(Before(c), InOrder(t.left), [t.item], InOrder(t.right), After(c));
  }

  /** Taking out a node with one child takes it out of the sequence. */
  lemma SplicedOrder<A, N>(c: Context<A, N>, t: Tree<A, N>)
    requires OneChild(t)
    ensures InOrder(Plug(c, Rest(t))) == (Before(c) + InOrder(t.left)) + (InOrder(t.right) + After(c))
  {
    PlugInOrder(c, Rest(t));
    assert InOrder(Rest(t)) == InOrder(t.left) + InOrder(t.right);
  }

  /** Every item of a tree stands in some hole. */
  lemma {:induction false} Locate<A, N>(c0: Context<A, N>, t0: Tree<A, N>, n: N)
    returns (c: Context<A, N>, t: Tree<A, N>)
    requires n in Items(t0)
    ensures Plug(c, t) == Plug(c0, t0) && t.Node? && t.item == n
    decreases t0
  {
    if n == t0.item {
      c, t := c0, t0;
    } else if n in Items(t0.left) {
      c, t := Locate(Below(Left, c0, t0), t0.left, n);
    } else {
      c, t := Locate(Below(Right, c0, t0), t0.right, n);
    }
  }

  /** The hole of `a`, when `a` itself stands in the hole of `b`. */
  function Append<A, N>(a: Context<A, N>, b: Context<A, N>): Context<A, N> {
    if a.Top? then b else a.(up := Append(a.up, b))
  }

  lemma {:induction false} AppendPlug<A, N>(a: Context<A, N>, b: Context<A, N>, t: Tree<A, N>)
    ensures Plug(Append(a, b), t) == Plug(b, Plug(a, t))
    decreases a
  {
    if a.Hole? {
      AppendPlug(a.up, b, Grow(a, t));
    }
  }

  /** The leftmost node `u.item` of the right subtree takes over the place of `t.item`. */
  function Moved<A, N>(t: Tree<A, N>, a: Context<A, N>, u: Tree<A, N>): Tree<A, N>
    requires t.Node? && u.Node?
  {
    Node(t.tag, t.left, u.item, Plug(a, Rest(u)))
  }

  lemma LeadingItem<T>(x: T, r: seq<T>, d: seq<T>)
    ensures [] + ([] + [x] + r) + d == [x] + ([] + r + d)
  {
  }

  lemma LeftmostOrder<A, N>(a: Context<A, N>, u: Tree<A, N>)
    requires u.Node? && u.left.Leaf? && Before(a) == []
    ensures InOrder(Plug(a, u)) == [u.item] + InOrder(Plug(a, Rest(u)))
  {
    PlugInOrder(a, u);
    PlugInOrder(a, Rest(u));
    LeadingItem(u.item, InOrder(u.right), After(a));
  }

  lemma MovedOrder<A, N>(c: Context<A, N>, t: Tree<A, N>, a: Context<A, N>, u: Tree<A, N>)
    requires t.Node? && u.Node? && t.right == Plug(a, u) && u.left.Leaf? && Before(a) == []
    ensures InOrder(Plug(c, Moved(t, a, u))) == (Before(c) + InOrder(t.left)) + (InOrder(t.right) + After(c))
  {
    LeftmostOrder(a, u);
    var m := Plug(a, Rest(u));
    hide Plug;
    PlugInOrder(c, Moved(t, a, u));
    Regroup(Before(c), InOrder(t.left), [u.item], InOrder(m), After(c));
  }
}
