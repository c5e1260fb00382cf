/**
 Red-black trees as values: the invariants, and the two repair loops of the program as functions on a
 tree with a hole.  Both red-black trees of the repository refine these functions.
 */
module RedBlack {
  import opened Trees

  datatype Color = Red | Black

  type RB<N> = Tree<Color, N>
  type RBContext<N> = Context<Color, N>

  predicate IsRed<N>(t: RB<N>) {
    t.Node? && t.tag == Red
  }

  function Paint<N>(t: RB<N>, color: Color): RB<N> {
    if t.Leaf? then t else t.(tag := color)
  }

  /** How much a node of this colour adds to the black height. */
  function Weight(color: Color): nat {
    if color == Black then 1 else 0
  }

  function BlackHeight<N>(t: RB<N>): nat {
    if t.Leaf? then 0 else BlackHeight(t.left) + Weight(t.tag)
  }

  /** Every path to a leaf passes the same number of black nodes. */
  predicate Balanced<N>(t: RB<N>) {
    t.Node? ==> BlackHeight(t.left) == BlackHeight(t.right) && Balanced(t.left) && Balanced(t.right)
  }

  /** No red node has a red child. */
  predicate NoRedRed<N>(t: RB<N>) {
    t.Node? ==>
      && (t.tag == Red ==> !IsRed(t.left) && !IsRed(t.right))
      && NoRedRed(t.left) && NoRedRed(t.right)
  }

  predicate Sound<N>(t: RB<N>) {
    Balanced(t) && NoRedRed(t)
  }

  /** A red-black tree. */
  predicate Valid<N>(t: RB<N>) {
    Sound(t) && !IsRed(t)
  }

  /** The colour above the hole; the outside counts as black. */
  function Above<N>(c: RBContext<N>): Color {
    if c.Top? then Black else c.tag
  }

  /** `c` completes a sound tree of black height `h` to a red-black tree, colours at the hole aside. */
  predicate Fits<N>(c: RBContext<N>, h: nat) {
    c.Hole? ==>
      && Sound(c.sib) && BlackHeight(c.sib) == h
      && (c.tag == Red ==> !IsRed(c.sib) && c.up.Hole? && c.up.tag == Black)
      && Fits(c.up, h + Weight(c.tag))
  }

  lemma {:induction false} PlugValid<N>(c: RBContext<N>, t: RB<N>)
    requires Sound(t) && Fits(c, BlackHeight(t))
    requires IsRed(t) ==> c.Hole? && c.tag == Black
    ensures Valid(Plug(c, t))
    decreases c
  {
    if c.Hole? {
      PlugValid(c.up, Grow(c, t));
    }
  }

  lemma {:induction false} ValidPlug<N>(c: RBContext<N>, t: RB<N>)
    requires Valid(Plug(c, t))
    ensures Sound(t) && Fits(c, BlackHeight(t))
    ensures IsRed(t) ==> c.Hole? && c.tag == Black
    decreases c
  {
    if c.Hole? {
      ValidPlug(c.up, Grow(c, t));
    }
  }

  // ---------------------------------------------------------------- insertion

  /** The one violation an insertion may have in flight: the red node in the hole may have a red parent. */
  predicate InsertPending<N>(c: RBContext<N>, t: RB<N>) {
    IsRed(t) && Sound(t) && Fits(c, BlackHeight(t))
  }

  /** One pass of the insertion loop, entered when the parent of the hole is red. */
  function InsertStep<N>(c: RBContext<N>, t: RB<N>): (r: (RBContext<N>, RB<N>))
    requires t.Node? && c.Hole? && c.up.Hole?
  {
    var parent, grand := c, c.up;
    var side := grand.side;
    if IsRed(grand.sib) then
      (grand.up, Make(side, Red, Paint(Grow(parent, t), Black), grand.item, Paint(grand.sib, Black)))
    else if parent.side == side then
      (Hole(side, Black, parent.item, Make(side, Red, parent.sib, grand.item, grand.sib), grand.up), t)
    else
      var outer := Make(side, Red, parent.sib, parent.item, Child(side, t));
      var inner := Make(side, Red, Child(side.Other(), t), grand.item, grand.sib);
      (Hole(side, Black, t.item, inner, grand.up), outer)
  }

  lemma SoundMake<N>(side: Side, color: Color, near: RB<N>, n: N, far: RB<N>)
    ensures var t := Make(side, color, near, n, far);
      && (Sound(t) <==>
          && Sound(near) && Sound(far) && BlackHeight(near) == BlackHeight(far)
          && (color == Red ==> !IsRed(near) && !IsRed(far)))
      && (Sound(t) ==> BlackHeight(t) == BlackHeight(near) + Weight(color))
  {
  }

  lemma PaintBlack<N>(t: RB<N>)
    requires Sound(t) && t.Node?
    ensures Sound(Paint(t, Black))
    ensures BlackHeight(Paint(t, Black)) == BlackHeight(t) + Weight(Black) - Weight(t.tag)
  {
  }

  lemma PaintRed<N>(t: RB<N>)
    requires Sound(t) && t.Node? && t.tag == Black && !IsRed(t.left) && !IsRed(t.right)
    ensures Sound(Paint(t, Red)) && BlackHeight(Paint(t, Red)) == BlackHeight(t) - 1
  {
  }

  /** A red uncle: the violation moves up by two levels. */
  lemma InsertRecolorKeeps<N>(c: RBContext<N>, t: RB<N>)
    requires InsertPending(c, t) && c.Hole? && c.tag == Red && c.up.Hole? && IsRed(c.up.sib)
    ensures var (c', t') := InsertStep(c, t); InsertPending(c', t') && Depth(c') < Depth(c)
  {
    var side, grand := c.up.side, c.up;
    assert Fits(grand, BlackHeight(t) + Weight(Red));
    PaintBlack(grand.sib);
    SoundMake(c.side, Black, t, c.item, c.sib);
    assert Paint(Grow(c, t), Black) == Make(c.side, Black, t, c.item, c.sib);
    SoundMake(side, Red, Paint(Grow(c, t), Black), grand.item, Paint(grand.sib, Black));
  }

  /** A black uncle: the rotations end the loop. */
  lemma InsertRotateKeeps<N>(c: RBContext<N>, t: RB<N>)
    requires InsertPending(c, t) && c.Hole? && c.tag == Red && c.up.Hole? && !IsRed(c.up.sib)
    ensures var (c', t') := InsertStep(c, t); InsertPending(c', t') && Depth(c') < Depth(c) && Above(c') == Black
  {
    var side, grand := c.up.side, c.up;
    assert Fits(grand, BlackHeight(t) + Weight(Red));
    if c.side == side {
      SoundMake(side, Red, c.sib, grand.item, grand.sib);
    } else {
      SoundMake(side, t.tag, Child(side, t), t.item, Child(side.Other(), t));
      SoundMake(side, Red, c.sib, c.item, Child(side, t));
      SoundMake(side, Red, Child(side.Other(), t), grand.item, grand.sib);
    }
  }

  /** A pass leaves at most the one violation, and moves it closer to the root or ends it. */
  lemma InsertStepKeeps<N>(c: RBContext<N>, t: RB<N>)
    requires InsertPending(c, t) && Above(c) == Red
    ensures c.Hole? && c.up.Hole?
    ensures var (c', t') := InsertStep(c, t);
      && InsertPending(c', t') && Depth(c') < Depth(c)
      && (!IsRed(c.up.sib) ==> Above(c') == Black)
  {
    if IsRed(c.up.sib) {
      InsertRecolorKeeps(c, t);
    } else {
      InsertRotateKeeps(c, t);
    }
  }

  /** A pass without a red uncle is one or two rotations and two repaints. */
  lemma InsertStepRotates<N>(c: RBContext<N>, t: RB<N>)
    requires IsRed(t) && c.Hole? && c.tag == Red && c.up.Hole? && !IsRed(c.up.sib)
    ensures var (c', t') := InsertStep(c, t);
      var side, pt := c.up.side, Grow(c, t);
      var outer := if c.side == side then pt else Rotate(side.Other(), pt);
      && c'.Hole? && t'.Node? && c'.up == c.up.up
      && Child(side, Grow(c.up, Paint(outer, Black))).Node?
      && Grow(c', t') == Rotate(side, Paint(Grow(c.up, Paint(outer, Black)), Red))
      && t'.item == (if c.side == side then t.item else c.item)
  {
  }

  /** The end of the loop: painting the root black leaves no violation. */
  lemma InsertEnd<N>(c: RBContext<N>, t: RB<N>)
    requires InsertPending(c, t) && Above(c) == Black
    ensures Valid(Paint(Plug(c, t), Black))
  {
    if c.Top? {
      PaintBlack(t);
    } else {
      PlugValid(c, t);
    }
  }

  // ---------------------------------------------------------------- deletion

  /**
   What a deletion may have in flight: one black node is missing on every path through the hole.  A red
   node in the hole may have red children, because the loop ends there and paints it black.
   */
  predicate DeletePending<N>(c: RBContext<N>, t: RB<N>) {
    Sound(Paint(t, Black)) && Fits(c, BlackHeight(t) + 1)
  }

  /** A red sibling is rotated above the parent of the hole, which thereby becomes red. */
  function RedSibling<N>(c: RBContext<N>): RBContext<N>
    requires c.Hole? && c.sib.Node?
  {
    var w := c.sib;
    Hole(c.side, Red, c.item, Child(c.side, w), Hole(c.side, Black, w.item, Child(c.side.Other(), w), c.up))
  }

  /** A black sibling whose outer child is black is replaced by its red inner child. */
  function OuterRed<N>(side: Side, w: RB<N>): (v: RB<N>)
    requires w.Node? && (IsRed(Child(side.Other(), w)) || Child(side, w).Node?)
    ensures v.Node? && IsRed(Child(side.Other(), v))
  {
    if IsRed(Child(side.Other(), w)) then w else
      Rotate(side, Make(side, Red, Paint(Child(side, w), Black), w.item, Child(side.Other(), w)))
  }

  /** The last rotation of a deletion, above a sibling `w` with a red outer child. */
  function Settle<N>(c: RBContext<N>, t: RB<N>, w: RB<N>): RB<N>
    requires c.Hole? && w.Node?
  {
    var s := c.side;
    Make(s, c.tag, Make(s, Black, t, c.item, Child(s, w)), w.item, Paint(Child(s.Other(), w), Black))
  }

  /** The rest of a pass of the deletion loop, once the sibling is black. */
  function BlackSiblingStep<N>(c: RBContext<N>, t: RB<N>): (RBContext<N>, RB<N>)
    requires c.Hole? && c.sib.Node?
  {
    var w := c.sib;
    if !IsRed(w.left) && !IsRed(w.right) then
      (c.up, Make(c.side, c.tag, t, c.item, Paint(w, Red)))
    else
      (Top, Plug(c.up, Settle(c, t, OuterRed(c.side, w))))
  }

  /** One pass of the deletion loop, entered when the node in the hole is black and not the root. */
  function DeleteStep<N>(c: RBContext<N>, t: RB<N>): (RBContext<N>, RB<N>)
    requires c.Hole? && c.sib.Node? && (IsRed(c.sib) ==> c.sib.left.Node? && c.sib.right.Node?)
  {
    BlackSiblingStep(if IsRed(c.sib) then RedSibling(c) else c, t)
  }

  /** A red sibling is moved up by two repaints and a rotation. */
  lemma RedSiblingRotates<N>(c: RBContext<N>, t: RB<N>)
    requires c.Hole? && IsRed(c.sib)
    ensures var u := Paint(Grow(c.(sib := Paint(c.sib, Black)), t), Red);
      Child(c.side.Other(), u).Node? && Plug(RedSibling(c), t) == Plug(c.up, Rotate(c.side.Other(), u))
  {
    assert Grow(RedSibling(c).up, Grow(RedSibling(c), t))
        == Rotate(c.side.Other(), Paint(Grow(c.(sib := Paint(c.sib, Black)), t), Red));
  }

  /** The last rotation of a deletion, as three repaints and a rotation. */
  lemma SettleRotates<N>(c: RBContext<N>, t: RB<N>, w: RB<N>)
    requires c.Hole? && w.Node?
    ensures var v := Make(c.side, c.tag, Child(c.side, w), w.item, Paint(Child(c.side.Other(), w), Black));
      Settle(c, t, w) == Rotate(c.side.Other(), Make(c.side, Black, t, c.item, v))
  {
  }

  lemma RedSiblingKeeps<N>(c: RBContext<N>, t: RB<N>)
    requires DeletePending(c, t) && c.Hole? && IsRed(c.sib)
    ensures var c' := RedSibling(c);
      DeletePending(c', t) && Depth(c') == Depth(c) + 1 && c'.sib.Node? && !IsRed(c'.sib)
  {
    SoundMake(c.side, Red, Child(c.side, c.sib), c.sib.item, Child(c.side.Other(), c.sib));
    assert Fits(c.up, BlackHeight(t) + 1 + Weight(c.tag));
  }

  lemma OuterRedKeeps<N>(side: Side, w: RB<N>)
    requires Sound(w) && w.Node? && w.tag == Black && (IsRed(w.left) || IsRed(w.right))
    ensures var v := OuterRed(side, w);
      && v.Node? && v.tag == Black && Sound(v) && BlackHeight(v) == BlackHeight(w) && IsRed(Child(side.Other(), v))
  {
    var inner, outer := Child(side, w), Child(side.Other(), w);
    if !IsRed(outer) {
      SoundMake(side, Black, inner, w.item, outer);
      SoundMake(side, Red, Child(side, inner), inner.item, Child(side.Other(), inner));
      SoundMake(side, Red, Child(side.Other(), inner), w.item, outer);
      SoundMake(side, Black, Child(side, inner), inner.item,
        Make(side, Red, Child(side.Other(), inner), w.item, outer));
    }
  }

  lemma SettleKeeps<N>(c: RBContext<N>, t: RB<N>, w: RB<N>)
    requires DeletePending(c, t) && c.Hole? && !IsRed(t)
    requires Sound(w) && w.Node? && w.tag == Black && BlackHeight(w) == BlackHeight(t) + 1
    requires IsRed(Child(c.side.Other(), w))
    ensures Valid(Plug(c.up, Settle(c, t, w)))
  {
    var s := c.side;
    assert Paint(t, Black) == t;
    SoundMake(s, Black, Child(s, w), w.item, Child(s.Other(), w));
    SoundMake(s, Black, t, c.item, Child(s, w));
    PaintBlack(Child(s.Other(), w));
    SoundMake(s, c.tag, Make(s, Black, t, c.item, Child(s, w)), w.item, Paint(Child(s.Other(), w), Black));
    assert Fits(c.up, BlackHeight(t) + 1 + Weight(c.tag));
    PlugValid(c.up, Settle(c, t, w));
  }

  /** With a black sibling, a pass moves the deficit up, onto a red node if the parent was red, or repairs it. */
  lemma BlackSiblingStepKeeps<N>(c: RBContext<N>, t: RB<N>)
    requires DeletePending(c, t) && c.Hole? && !IsRed(c.sib) && !IsRed(t)
    ensures c.sib.Node?
    ensures var (c', t') := BlackSiblingStep(c, t);
      && DeletePending(c', t') && Depth(c') < Depth(c)
      && (c.tag == Red ==> c'.Top? || (c' == c.up && IsRed(t')))
  {
    var w := c.sib;
    assert w.Node?;
    if !IsRed(w.left) && !IsRed(w.right) {
      PaintRed(w);
      SoundMake(c.side, Black, t, c.item, Paint(w, Red));
      assert Paint(Make(c.side, c.tag, t, c.item, Paint(w, Red)), Black)
          == Make(c.side, Black, t, c.item, Paint(w, Red));
      assert Fits(c.up, BlackHeight(t) + 1 + Weight(c.tag));
    } else {
      OuterRedKeeps(c.side, w);
      SettleKeeps(c, t, OuterRed(c.side, w));
    }
  }

  /** A pass of the deletion loop, with its termination measure: a rotation of a red sibling deepens the hole,
      but then the pass ends the loop or moves the hole back up, onto a red node. */
  lemma DeleteStepKeeps<N>(c: RBContext<N>, t: RB<N>)
    requires DeletePending(c, t) && c.Hole? && !IsRed(t)
    ensures c.sib.Node? && (IsRed(c.sib) ==> c.sib.left.Node? && c.sib.right.Node?)
    ensures var (c', t') := DeleteStep(c, t);
      DeletePending(c', t') && (Depth(c') < Depth(c) || (Depth(c') == Depth(c) && IsRed(t')))
  {
    if IsRed(c.sib) {
      RedSiblingKeeps(c, t);
      BlackSiblingStepKeeps(RedSibling(c), t);
    } else {
      BlackSiblingStepKeeps(c, t);
    }
  }

  /** The end of the loop: painting the hole black repairs what is left. */
  lemma DeleteEnd<N>(c: RBContext<N>, t: RB<N>)
    requires DeletePending(c, t) && (c.Top? || IsRed(t))
    ensures Valid(Plug(c, Paint(t, Black)))
  {
    PlugValid(c, Paint(t, Black));
  }

  /** Taking out a node with at most one child leaves a deficit exactly when the node was black. */
  lemma SpliceKeeps<N>(c: RBContext<N>, t: RB<N>)
    requires Valid(Plug(c, t)) && OneChild(t)
    ensures if t.tag == Black then DeletePending(c, Rest(t)) else Valid(Plug(c, Rest(t)))
  {
    ValidPlug(c, t);
    var child := Rest(t);
    assert Sound(child) && BlackHeight(child) == 0;
    if t.tag == Red {
      PlugValid(c, child);
    } else if IsRed(child) {
      PaintBlack(child);
    } else {
      assert Paint(child, Black) == child;
    }
  }

  /** Hanging a red node into an empty place leaves at most the one violation. */
  lemma AttachKeeps<N>(c: RBContext<N>, n: N)
    requires Valid(Plug(c, Leaf))
    ensures InsertPending(c, Node(Red, Leaf, n, Leaf))
  {
    ValidPlug(c, Leaf);
  }

  /** The invariants do not depend on which node stands where. */
  lemma {:induction false} FitsRenamed<N>(a: RBContext<N>, b: RBContext<N>, n: N, h: nat)
    requires b.Hole?
    ensures Fits(Append(a, b.(item := n)), h) <==> Fits(Append(a, b), h)
    decreases a
  {
    if a.Hole? {
      FitsRenamed(a.up, b, n, h + Weight(a.tag));
    }
  }

  /** After a deficit or none was left below `b`, the node of `b` may be exchanged for another. */
  lemma RenamedKeeps<N>(a: RBContext<N>, b: RBContext<N>, n: N, t: RB<N>)
    requires b.Hole?
    ensures DeletePending(Append(a, b), t) ==> DeletePending(Append(a, b.(item := n)), t)
    ensures Valid(Plug(Append(a, b), t)) ==> Valid(Plug(Append(a, b.(item := n)), t))
  {
    FitsRenamed(a, b, n, BlackHeight(t) + 1);
    FitsRenamed(a, b, n, BlackHeight(t));
    if Valid(Plug(Append(a, b), t)) {
      ValidPlug(Append(a, b), t);
      PlugValid(Append(a, b.(item := n)), t);
    }
  }

  // ---------------------------------------------------------------- what the invariants mean

  /** The black nodes on the way from the hole up to the root. */
  function Blacks<N>(c: RBContext<N>): nat {
    if c.Top? then 0 else (if c.tag == Black then 1 else 0) + Blacks(c.up)
  }

  /** On the way down to the leftmost leaf of a subtree there are as many black nodes as its black height says. */
  lemma {:induction false} LeafBelow<N>(c: RBContext<N>, t: RB<N>) returns (d: RBContext<N>)
    ensures Plug(d, Leaf) == Plug(c, t) && Blacks(d) == Blacks(c) + BlackHeight(t)
    decreases t
  {
    d := c;
    if t.Node? {
      d := LeafBelow(Below(Left, c, t), t.left);
    }
  }

  lemma {:induction false} BlacksAbove<N>(c: RBContext<N>, t: RB<N>)
    requires Fits(c, BlackHeight(t))
    ensures BlackHeight(Plug(c, t)) == Blacks(c) + BlackHeight(t)
    decreases c
  {
    if c.Hole? {
      BlacksAbove(c.up, Grow(c, t));
    }
  }

  /**
   A red-black tree is a tree with a black root, in which the parent of a red node is black, and every way from
   a leaf to the root passes the same number of black nodes.
   */
  lemma ValidMeans<N>(t: RB<N>)
    ensures Valid(t) ==> t.Node? ==> t.tag == Black
    ensures Valid(t) ==> forall c: RBContext<N>, u: RB<N> ::
      Plug(c, u) == t && u.Node? && u.tag == Red ==> c.Hole? && c.tag == Black
    ensures Valid(t) ==> forall c: RBContext<N>, d: RBContext<N> ::
      Plug(c, Leaf) == t && Plug(d, Leaf) == t ==> Blacks(c) == Blacks(d)
  {
    if Valid(t) {
      forall c: RBContext<N>, u: RB<N> | Plug(c, u) == t && u.Node? && u.tag == Red
        ensures c.Hole? && c.tag == Black
      {
        ValidPlug(c, u);
      }
      forall c: RBContext<N>, d: RBContext<N> | Plug(c, Leaf) == t && Plug(d, Leaf) == t
        ensures Blacks(c) == Blacks(d)
      {
        LeafBlacks(c);
        LeafBlacks(d);
      }
    }
  }

  lemma LeafBlacks<N>(c: RBContext<N>)
    requires Valid(Plug(c, Leaf))
    ensures Blacks(c) == BlackHeight(Plug(c, Leaf))
  {
    ValidPlug(c, Leaf);
    BlacksAbove(c, Leaf);
  }

  /** And every such tree is a red-black tree. */
  lemma MeansValid<N>(t: RB<N>)
    requires t.Node? ==> t.tag == Black
    requires forall c: RBContext<N>, u: RB<N> ::
      Plug(c, u) == t && u.Node? && u.tag == Red ==> c.Hole? && c.tag == Black
    requires forall c: RBContext<N>, d: RBContext<N> ::
      Plug(c, Leaf) == t && Plug(d, Leaf) == t ==> Blacks(c) == Blacks(d)
    ensures Valid(t)
  {
    MeansSound(t, Top, t);
  }

  lemma {:induction false} MeansSound<N>(t: RB<N>, c: RBContext<N>, u: RB<N>)
    requires forall c: RBContext<N>, u: RB<N> ::
      Plug(c, u) == t && u.Node? && u.tag == Red ==> c.Hole? && c.tag == Black
    requires forall c: RBContext<N>, d: RBContext<N> ::
      Plug(c, Leaf) == t && Plug(d, Leaf) == t ==> Blacks(c) == Blacks(d)
    requires Plug(c, u) == t
    ensures Sound(u)
    decreases u
  {
    if u.Node? {
      var l, r := Below(Left, c, u), Below(Right, c, u);
      assert Plug(l, u.left) == t == Plug(r, u.right);
      MeansSound(t, l, u.left);
      MeansSound(t, r, u.right);
      var d := LeafBelow(l, u.left);
      var e := LeafBelow(r, u.right);
      assert Blacks(d) == Blacks(e);
    }
  }

  // ---------------------------------------------------------------- height

  function Pow2(n: nat): nat {
    if n == 0 then 1 else 2 * Pow2(n - 1)
  }

  lemma Pow2Grows(n: nat)
    ensures Pow2(0) == 1 && Pow2(n + 1) == Pow2(n) + Pow2(n)
  {
  }

  lemma {:induction false} Pow2Mono(m: nat, n: nat)
    requires m <= n
    ensures Pow2(m) <= Pow2(n)
  {
    if m < n {
      Pow2Mono(m, n - 1);
    }
  }

  lemma {:induction false} Pow2Double(n: nat)
    ensures Pow2(2 * n) == Pow2(n) * Pow2(n)
  {
    if n > 0 {
      Pow2Double(n - 1);
      assert Pow2(2 * n) == 4 * Pow2(2 * (n - 1));
    }
  }

  lemma SquareMono(a: nat, b: nat)
    requires a <= b
    ensures a * a <= b * b
  {
    assert b * b == a * a + (b - a) * (b + a);
  }

  lemma {:induction false} SoundHeight<N>(t: RB<N>)
    requires Sound(t)
    ensures Height(t) <= 2 * BlackHeight(t) + (if IsRed(t) then 1 else 0)
    ensures Pow2(BlackHeight(t)) <= Size(t) + 1
  {
    if t.Node? {
      SoundHeight(t.left);
      SoundHeight(t.right);
    }
  }

  /** No path in a red-black tree of n nodes is longer than 2 log2(n + 1). */
  lemma PathBound<N>(t: RB<N>, steps: nat)
    requires Valid(t) && steps <= Height(t)
    ensures Pow2(steps) <= (Size(t) + 1) * (Size(t) + 1)
  {
    SoundHeight(t);
    var b := BlackHeight(t);
    Pow2Mono(steps, 2 * b);
    Pow2Double(b);
    SquareMono(Pow2(b), Size(t) + 1);
  }
}
