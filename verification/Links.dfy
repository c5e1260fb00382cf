/**
 Trees as linked nodes.  `Cells` lists the fields every node of a tree must have; the node `nil` stands
 for a missing child and for the parent of the root (a sentinel object, or null).  The lemmas say which
 fields change when the tree changes, so that a program that overwrites exactly those fields is proved
 without following pointers.
 */
module Links {
  import opened Trees

  datatype Cell<A, N> = Cell(tag: A, left: N, right: N, parent: N)

  function Root<A, N>(t: Tree<A, N>, nil: N): N {
    if t.Leaf? then nil else t.item
  }

  function Parent<A, N>(c: Context<A, N>, nil: N): N {
    if c.Top? then nil else c.item
  }

  /** The fields of the node `n` of `t` when `t` hangs below `p`. */
  function CellOf<A, N(==)>(t: Tree<A, N>, p: N, nil: N, n: N): Cell<A, N>
    requires n in Items(t)
    decreases t
  {
    if n == t.item then Cell(t.tag, Root(t.left, nil), Root(t.right, nil), p)
    else if n in Items(t.left) then CellOf(t.left, t.item, nil, n)
    else CellOf(t.right, t.item, nil, n)
  }

  function HoleCell<A, N>(c: Context<A, N>, x: N, nil: N): Cell<A, N>
    requires c.Hole?
  {
    var sib, up := Root(c.sib, nil), Parent(c.up, nil);
    if c.side == Left then Cell(c.tag, x, sib, up) else Cell(c.tag, sib, x, up)
  }

  /** The fields of the node `n` around a hole that is filled by a tree with root `x`. */
  function CellAround<A, N(==)>(c: Context<A, N>, x: N, nil: N, n: N): Cell<A, N>
    requires n in Around(c)
    decreases c
  {
    if n == c.item then HoleCell(c, x, nil)
    else if n in Items(c.sib) then CellOf(c.sib, c.item, nil, n)
    else CellAround(c.up, c.item, nil, n)
  }

  lemma {:induction false} PlugCell<A, N>(c: Context<A, N>, t: Tree<A, N>, nil: N, n: N)
    requires Separate(c, t)
    requires n in Items(t) + Around(c)
    ensures n in Items(Plug(c, t))
    ensures CellOf(Plug(c, t), nil, nil, n)
         == if n in Items(t) then CellOf(t, Parent(c, nil), nil, n) else CellAround(c, Root(t, nil), nil, n)
    decreases c
  {
    if c.Hole? {
      GrowSeparate(c, t);
      PlugCell(c.up, Grow(c, t), nil, n);
    }
  }

  lemma {:induction false} RootPlug<A, N>(c: Context<A, N>, t: Tree<A, N>, u: Tree<A, N>, nil: N)
    requires c.Hole?
    ensures Root(Plug(c, t), nil) == Root(Plug(c, u), nil)
    decreases c
  {
    if c.up.Hole? {
      RootPlug(c.up, Grow(c, t), Grow(c, u), nil);
    }
  }

  /** The fields at the hole: of the root of the tree in it, and of the node above it. */
  lemma LookAtHole<A, N>(c: Context<A, N>, t: Tree<A, N>, nil: N)
    requires Separate(c, t)
    ensures var u := Plug(c, t);
      && Items(u) == Items(t) + Around(c)
      && (t.Node? ==>
          && t.item in Items(u)
          && CellOf(u, nil, nil, t.item) == Cell(t.tag, Root(t.left, nil), Root(t.right, nil), Parent(c, nil)))
      && (c.Hole? ==> c.item in Items(u) && CellOf(u, nil, nil, c.item) == HoleCell(c, Root(t, nil), nil))
  {
    PlugSeparate(c, t);
    if t.Node? {
      PlugCell(c, t, nil, t.item);
    }
    if c.Hole? {
      PlugCell(c, t, nil, c.item);
    }
  }

  /** The fields after `y` has taken the place of `x` below the node `p`. */
  function Relinked<A, N(==)>(x: N, y: N, p: N, f: Cell<A, N>, n: N, nil: N): Cell<A, N> {
    if n != p || n == nil then f
    else if f.left == x then f.(left := y)
    else f.(right := y)
  }

  /** Putting another tree into the hole changes one link of the node above it. */
  lemma RelinkedAround<A, N>(c: Context<A, N>, x: N, y: N, nil: N, n: N)
    requires n in Around(c) && DistinctAround(c) && nil !in Around(c)
    requires c.Hole? ==> x != Root(c.sib, nil)
    ensures CellAround(c, y, nil, n) == Relinked(x, y, Parent(c, nil), CellAround(c, x, nil, n), n, nil)
  {
  }

  /** Painting the root of the tree in the hole. */
  lemma PaintedShape<A, N>(c: Context<A, N>, t: Tree<A, N>, a: A, nil: N)
    requires Distinct(Plug(c, t)) && t.Node?
    ensures var u, u' := Plug(c, t), Plug(c, t.(tag := a));
      && Distinct(u') && Items(u') == Items(u) && Root(u', nil) == Root(u, nil)
      && InOrder(u') == InOrder(u) && t.item in Items(u)
      && forall n :: n in Items(u) ==>
        var f := CellOf(u, nil, nil, n);
        CellOf(u', nil, nil, n) == if n == t.item then f.(tag := a) else f
  {
    var t' := t.(tag := a);
    PlugSeparate(c, t);
    PlugSeparate(c, t');
    PlugInOrder(c, t);
    PlugInOrder(c, t');
    if c.Hole? {
      RootPlug(c, t, t', nil);
    }
    forall n | n in Items(t) + Around(c)
      ensures CellOf(Plug(c, t'), nil, nil, n)
           == var f := CellOf(Plug(c, t), nil, nil, n); if n == t.item then f.(tag := a) else f
    {
      PlugCell(c, t, nil, n);
      PlugCell(c, t', nil, n);
    }
  }

  /** The fields of a node after the child `y` on side `s` of `x`, with inner subtree `b`, was lifted above `x`. */
  function Rotated<A, N(==)>(s: Side, x: N, y: N, b: N, p: N, f: Cell<A, N>, n: N): Cell<A, N> {
    if n == x then (if s == Right then f.(right := b, parent := y) else f.(left := b, parent := y))
    else if n == y then (if s == Right then f.(left := x, parent := p) else f.(right := x, parent := p))
    else if n == b then f.(parent := x)
    else f
  }

  lemma RotatedInside<A, N>(s: Side, t: Tree<A, N>, p: N, nil: N, n: N)
    requires Distinct(t) && nil !in Items(t) && t.Node? && Child(s, t).Node? && n in Items(t)
    ensures n in Items(Rotate(s, t))
    ensures var k := Child(s, t);
      var b := Root(Child(s.Other(), k), nil);
      CellOf(Rotate(s, t), p, nil, n) == Rotated(s, t.item, k.item, b, p, CellOf(t, p, nil, n), n)
  {
    RotateItems(s, t);
    var k, u := Child(s, t), Rotate(s, t);
    var lowered := Child(s.Other(), u);
    assert n in Items(k) ==> CellOf(t, p, nil, n) == CellOf(k, t.item, nil, n);
    assert Distinct(k) && Distinct(lowered);
    assert n in Items(lowered) ==> CellOf(u, p, nil, n) == CellOf(lowered, k.item, nil, n);
    var b := Child(s.Other(), k);
    if n in Items(b) {
      assert CellOf(k, t.item, nil, n) == CellOf(b, k.item, nil, n);
      assert CellOf(lowered, k.item, nil, n) == CellOf(b, t.item, nil, n);
    }
  }

  /**
   The fields of a node after a rotation: only the two nodes it exchanges, the subtree that moves and the node
   above change.
   */
  function Lifted<A, N(==)>(s: Side, x: N, y: N, b: N, p: N, f: Cell<A, N>, n: N, nil: N): Cell<A, N> {
    Relinked(x, y, p, Rotated(s, x, y, b, p, f, n), n, nil)
  }

  function LinkTo<A, N>(s: Side, f: Cell<A, N>): N {
    if s == Left then f.left else f.right
  }

  /** The four nodes of a rotation, read from the fields, and that they differ. */
  lemma RotationSite<A, N>(s: Side, c: Context<A, N>, t: Tree<A, N>, nil: N)
    requires Distinct(Plug(c, t)) && nil !in Items(Plug(c, t)) && t.Node? && Child(s, t).Node?
    ensures var u, x, y := Plug(c, t), t.item, Child(s, t).item;
      var b, p := Root(Child(s.Other(), Child(s, t)), nil), Parent(c, nil);
      && {x, y} <= Items(u) && {b, p} <= Items(u) + {nil}
      && (c.Hole? ==> p != nil) && y !in {x, p, b} && x !in {p, b} && (b == p ==> p == nil)
      && LinkTo(s, CellOf(u, nil, nil, x)) == y && CellOf(u, nil, nil, x).parent == p
      && LinkTo(s.Other(), CellOf(u, nil, nil, y)) == b
      && (c.Hole? ==> (CellOf(u, nil, nil, p).left == x) != (CellOf(u, nil, nil, p).right == x))
  {
    PlugSeparate(c, t);
    var c' := Below(s, c, t);
    GrowSeparate(c', Child(s, t));
    LookAtHole(c, t, nil);
    LookAtHole(c', Child(s, t), nil);
  }

  lemma RotatedShape<A, N>(s: Side, c: Context<A, N>, t: Tree<A, N>, nil: N)
    requires Distinct(Plug(c, t)) && nil !in Items(Plug(c, t)) && t.Node? && Child(s, t).Node?
    ensures var k := Child(s, t);
      var b, p := Root(Child(s.Other(), k), nil), Parent(c, nil);
      var u, u' := Plug(c, t), Plug(c, Rotate(s, t));
      && Distinct(u') && Items(u') == Items(u)
      && Root(u', nil) == (if c.Top? then k.item else Root(u, nil))
      && InOrder(u') == InOrder(u)
      && forall n :: n in Items(u) ==>
        CellOf(u', nil, nil, n) == Lifted(s, t.item, k.item, b, p, CellOf(u, nil, nil, n), n, nil)
  {
    var t', k := Rotate(s, t), Child(s, t);
    var b, p := Root(Child(s.Other(), k), nil), Parent(c, nil);
    RotateItems(s, t);
    RotateInOrder(s, t);
    PlugSeparate(c, t);
    PlugSeparate(c, t');
    PlugInOrder(c, t);
    PlugInOrder(c, t');
    if c.Hole? {
      RootPlug(c, t, t', nil);
    }
    forall n | n in Items(t) + Around(c)
      ensures CellOf(Plug(c, t'), nil, nil, n)
           == Lifted(s, t.item, k.item, b, p, CellOf(Plug(c, t), nil, nil, n), n, nil)
    {
      PlugCell(c, t, nil, n);
      PlugCell(c, t', nil, n);
      if n in Items(t) {
        RotatedInside(s, t, p, nil, n);
      } else {
        RelinkedAround(c, t.item, k.item, nil, n);
      }
    }
  }

  function WithLink<A, N>(s: Side, f: Cell<A, N>, y: N): Cell<A, N> {
    if s == Left then f.(left := y) else f.(right := y)
  }

  /** Putting another tree into the hole changes, around it, one link of the node above it. */
  lemma RefilledAround<A, N>(c: Context<A, N>, t: Tree<A, N>, u: Tree<A, N>, nil: N, n: N)
    requires Separate(c, t) && Separate(c, u) && n in Around(c)
    ensures n in Items(Plug(c, t)) && n in Items(Plug(c, u))
    ensures var f := CellOf(Plug(c, t), nil, nil, n);
      CellOf(Plug(c, u), nil, nil, n) == if n == c.item then WithLink(c.side, f, Root(u, nil)) else f
  {
    PlugCell(c, t, nil, n);
    PlugCell(c, u, nil, n);
  }

  /** The tree after the node `t.item`, which has at most one child, was taken out. */
  lemma SplicedShape<A, N>(c: Context<A, N>, t: Tree<A, N>, nil: N)
    requires Distinct(Plug(c, t)) && nil !in Items(Plug(c, t)) && OneChild(t)
    ensures var y, x, p := t.item, Root(Rest(t), nil), Parent(c, nil);
      var u, u' := Plug(c, t), Plug(c, Rest(t));
      && y in Items(u) && Distinct(u') && Items(u') == Items(u) - {y}
      && Root(u', nil) == (if c.Top? then x else Root(u, nil))
      && (forall n :: n in Items(u') ==>
        var f := CellOf(u, nil, nil, n);
        CellOf(u', nil, nil, n) == Relinked(y, x, p, if n == x then f.(parent := p) else f, n, nil))
      && CellOf(u, nil, nil, y) == Cell(t.tag, Root(t.left, nil), Root(t.right, nil), p)
      && (c.Hole? ==>
        && p in Items(u') && p != nil
        && (CellOf(u, nil, nil, p).left == y) != (CellOf(u, nil, nil, p).right == y))
      && (x != nil ==> x in Items(u') && x != p)
  {
    var child := Rest(t);
    SplicedItems(c, t);
    LookAtHole(c, t, nil);
    LookAtHole(c, child, nil);
    if c.Hole? {
      RootPlug(c, t, child, nil);
    }
    forall n | n in Items(child) + Around(c)
      ensures CellOf(Plug(c, child), nil, nil, n)
           == var f := CellOf(Plug(c, t), nil, nil, n);
              var g := if n == Root(child, nil) then f.(parent := Parent(c, nil)) else f;
              Relinked(t.item, Root(child, nil), Parent(c, nil), g, n, nil)
    {
      PlugCell(c, t, nil, n);
      PlugCell(c, child, nil, n);
      if n in Around(c) {
        RelinkedAround(c, t.item, Root(child, nil), nil, n);
      }
    }
  }

  lemma AttachedOrder<A, N>(c: Context<A, N>, a: A, z: N)
    ensures InOrder(Plug(c, Leaf)) == Before(c) + After(c)
    ensures InOrder(Plug(c, Node(a, Leaf, z, Leaf))) == Before(c) + [z] + After(c)
  {
    EmptyHole(c);
    PlugInOrder(c, Node(a, Leaf, z, Leaf));
    hide Plug, Before, After;
    assert InOrder(Node(a, Leaf, z, Leaf)) == [z];
  }

  /** The tree after the new node `z` was hung into an empty place. */
  lemma AttachedShape<A, N>(c: Context<A, N>, a: A, z: N, nil: N)
    requires Distinct(Plug(c, Leaf)) && nil !in Items(Plug(c, Leaf)) && z !in Items(Plug(c, Leaf))
    ensures var u, u' := Plug(c, Leaf), Plug(c, Node(a, Leaf, z, Leaf));
      && Distinct(u') && Items(u') == Items(u) + {z}
      && Root(u', nil) == (if c.Top? then z else Root(u, nil))
      && InOrder(u) == Before(c) + After(c) && InOrder(u') == Before(c) + [z] + After(c)
      && (c.Hole? ==> c.item in Items(u) && c.item != nil)
      && CellOf(u', nil, nil, z) == Cell(a, nil, nil, Parent(c, nil))
      && forall n :: n in Items(u) ==>
        var f := CellOf(u, nil, nil, n);
        CellOf(u', nil, nil, n) == if c.Hole? && n == c.item then WithLink(c.side, f, z) else f
  {
    var t: Tree<A, N> := Node(a, Leaf, z, Leaf);
    PlugSeparate(c, Leaf);
    PlugSeparate(c, t);
    AttachedOrder(c, a, z);
    LookAtHole(c, t, nil);
    if c.Hole? {
      RootPlug(c, Leaf, t, nil);
    }
    forall n | n in Around(c)
      ensures CellOf(Plug(c, t), nil, nil, n)
           == var f := CellOf(Plug(c, Leaf), nil, nil, n); if n == c.item then WithLink(c.side, f, z) else f
    {
      RefilledAround(c, Leaf, t, nil, n);
    }
  }

  /** Exchanging the node at the root of `t` for `y` inside `t`: its children get the new parent. */
  lemma ExchangedInside<A, N>(t: Tree<A, N>, y: N, p: N, nil: N, n: N)
    requires Distinct(t) && nil !in Items(t) && t.Node? && y !in Items(t) && n in Items(t.(item := y))
    ensures n != y ==> n in Items(t)
    ensures CellOf(t.(item := y), p, nil, n)
         == if n == y then CellOf(t, p, nil, t.item) else
            var f := CellOf(t, p, nil, n);
            if n in {Root(t.left, nil), Root(t.right, nil)} then f.(parent := y) else f
  {
    var u := t.(item := y);
    if n != y {
      var s := if n in Items(t.left) then Left else Right;
      assert CellOf(t, p, nil, n) == CellOf(Child(s, t), t.item, nil, n);
      assert CellOf(u, p, nil, n) == CellOf(Child(s, t), y, nil, n);
      assert n in {Root(t.left, nil), Root(t.right, nil)} <==> n == Child(s, t).item;
    }
  }

  /** The tree after the node `t.item` was exchanged for the new node `y`. */
  lemma ExchangedShape<A, N>(c: Context<A, N>, t: Tree<A, N>, y: N, nil: N)
    requires Distinct(Plug(c, t)) && nil !in Items(Plug(c, t)) && t.Node? && y !in Items(Plug(c, t))
    ensures var x, p := t.item, Parent(c, nil);
      var u, u' := Plug(c, t), Plug(c, t.(item := y));
      && Distinct(u') && x in Items(u) && Items(u') == Items(u) - {x} + {y}
      && Root(u', nil) == (if c.Top? then y else Root(u, nil))
      && CellOf(u', nil, nil, y) == CellOf(u, nil, nil, x) == Cell(t.tag, Root(t.left, nil), Root(t.right, nil), p)
      && (forall n :: n in Items(u) && n != x ==>
        var f := CellOf(u, nil, nil, n);
        CellOf(u', nil, nil, n)
          == Relinked(x, y, p, if n in {Root(t.left, nil), Root(t.right, nil)} then f.(parent := y) else f, n, nil))
  {
    var t' := t.(item := y);
    PlugSeparate(c, t);
    PlugSeparate(c, t');
    LookAtHole(c, t, nil);
    LookAtHole(c, t', nil);
    if c.Hole? {
      RootPlug(c, t, t', nil);
    }
    forall n | n in Items(t) + Around(c) && n != t.item
      ensures CellOf(Plug(c, t'), nil, nil, n)
           == var f := CellOf(Plug(c, t), nil, nil, n);
              var g := if n in {Root(t.left, nil), Root(t.right, nil)} then f.(parent := y) else f;
              Relinked(t.item, y, Parent(c, nil), g, n, nil)
    {
      PlugCell(c, t, nil, n);
      PlugCell(c, t', nil, n);
      if n in Around(c) {
        RelinkedAround(c, t.item, y, nil, n);
      } else {
        ExchangedInside(t, y, Parent(c, nil), nil, n);
      }
    }
  }

  /** The nodes around an exchange, read from the fields, and that they differ. */
  lemma ExchangeSite<A, N>(c: Context<A, N>, t: Tree<A, N>, nil: N)
    requires Distinct(Plug(c, t)) && nil !in Items(Plug(c, t)) && t.Node?
    ensures var u, x, p := Plug(c, t), t.item, Parent(c, nil);
      var l, r := Root(t.left, nil), Root(t.right, nil);
      && {p, l, r} <= Items(u) + {nil} && x !in {p, l, r} && (l == nil <==> t.left.Leaf?)
      && (l == r ==> l == nil) && (p in {l, r} ==> p == nil)
      && (c.Hole? ==> p != nil && (CellOf(u, nil, nil, p).left == x) != (CellOf(u, nil, nil, p).right == x))
  {
    PlugSeparate(c, t);
    LookAtHole(c, t, nil);
  }
}
