/**
 The top-down splay tree of the same header: one loop moves the sought element to the root while it
 builds a left and a right part on the way down, and puts the parts together at the end.
 */
module NtySplay {
  import opened Trees
  import opened Links
  import opened Sequences

  class Elm {
    var left: Elm?
    var right: Elm?
    const key: int

    function Kids(): (Elm?, Elm?)
      reads `left, `right
    {
      (left, right)
    }

    constructor (key: int)
      ensures this.key == key && left == null && right == null
    {
      this.key := key;
      left, right := null, null;
    }
  }

  type Shape = Tree<(), Elm?>

  /** The left part is a spine of right holes, the right part a spine of left holes. */
  type Spine = Context<(), Elm?>

  function KidsOf(t: Shape, n: Elm?): (Elm?, Elm?)
    requires n in Items(t)
  {
    var f := CellOf(t, null, null, n);
    (f.left, f.right)
  }

  /** The links of the node `n` of a spine whose open link is `x`. */
  function KidsAround(c: Spine, x: Elm?, n: Elm?): (Elm?, Elm?)
    requires n in Around(c)
  {
    var f := CellAround(c, x, null, n);
    (f.left, f.right)
  }

  /** The top of a spine whose open link is `x`. */
  function Crown(c: Spine, x: Elm?): Elm? {
    if c.Top? then x else Crown(c.up, c.item)
  }

  lemma {:induction false} CrownPlug(c: Spine, t: Shape)
    ensures Root(Plug(c, t), null) == Crown(c, Root(t, null))
    decreases c
  {
    if c.Hole? {
      CrownPlug(c.up, Grow(c, t));
    }
  }

  lemma RotatedKids(s: Side, t: Shape, n: Elm?)
    requires Distinct(t) && null !in Items(t) && t.Node? && Child(s, t).Node? && n in Items(t)
    ensures n in Items(Rotate(s, t))
    ensures var k := Child(s, t);
      KidsOf(Rotate(s, t), n) ==
        if n == t.item then
          (if s == Left then (Root(k.right, null), Root(t.right, null)) else (Root(t.left, null), Root(k.left, null)))
        else if n == k.item then (if s == Left then (Root(k.left, null), t.item) else (t.item, Root(k.right, null)))
        else KidsOf(t, n)
  {
    RotateItems(s, t);
    RotatedInside(s, t, null, null, n);
  }

  /** The three parts of a tree inside the loop share no node. */
  predicate Apart(lc: Spine, t: Shape, rc: Spine) {
    && Distinct(t) && DistinctAround(lc) && DistinctAround(rc)
    && Around(lc) !! Around(rc) && Items(t) !! Around(lc) && Items(t) !! Around(rc)
    && After(lc) == [] && Before(rc) == []
  }

  /** The links of a node of the three parts; `x` and `y` stand in the open links of the spines. */
  function KidsIn(lc: Spine, t: Shape, rc: Spine, x: Elm?, y: Elm?, n: Elm?): (Elm?, Elm?)
    requires n in Around(lc) + Items(t) + Around(rc)
  {
    if n in Items(t) then KidsOf(t, n)
    else if n in Around(lc) then KidsAround(lc, x, n)
    else KidsAround(rc, y, n)
  }

  lemma ChildKids(s: Side, t: Shape)
    requires Distinct(t) && t.Node? && Child(s, t).Node?
    ensures var k := Child(s, t);
      && t.item != k.item && {t.item, k.item} <= Items(t)
      && KidsOf(t, t.item) == (Root(t.left, null), Root(t.right, null))
      && KidsOf(t, k.item) == (Root(k.left, null), Root(k.right, null))
  {
    var k := Child(s, t);
    assert k.item in Items(k) && Items(t.left) !! Items(t.right);
    assert CellOf(k, t.item, null, k.item) == Cell(k.tag, Root(k.left, null), Root(k.right, null), t.item);
    match s
    case Left =>
    case Right =>
  }

  lemma RotatedParts(s: Side, lc: Spine, t: Shape, rc: Spine, x: Elm?, y: Elm?, nodes: set<Elm?>)
    requires Apart(lc, t, rc) && null !in nodes && t.Node? && Child(s, t).Node?
    requires nodes == Around(lc) + Items(t) + Around(rc)
    ensures Apart(lc, Rotate(s, t), rc) && nodes == Around(lc) + Items(Rotate(s, t)) + Around(rc)
    ensures var k := Child(s, t);
      && t.item != k.item && {t.item, k.item} <= Items(t)
      && KidsIn(lc, t, rc, x, y, t.item) == (Root(t.left, null), Root(t.right, null))
      && KidsIn(lc, t, rc, x, y, k.item) == (Root(k.left, null), Root(k.right, null))
    ensures var k := Child(s, t); forall n :: n in nodes ==>
      KidsIn(lc, Rotate(s, t), rc, x, y, n) ==
        if n == t.item then
          (if s == Left then (Root(k.right, null), Root(t.right, null)) else (Root(t.left, null), Root(k.left, null)))
        else if n == k.item then (if s == Left then (Root(k.left, null), t.item) else (t.item, Root(k.right, null)))
        else KidsIn(lc, t, rc, x, y, n)
  {
    RotateItems(s, t);
    ChildKids(s, t);
    forall n | n in Items(t)
      ensures var k := Child(s, t);
        KidsOf(Rotate(s, t), n) ==
          if n == t.item then
            (if s == Left then (Root(k.right, null), Root(t.right, null)) else (Root(t.left, null), Root(k.left, null)))
          else if n == k.item then (if s == Left then (Root(k.left, null), t.item) else (t.item, Root(k.right, null)))
          else KidsOf(t, n)
    {
      RotatedKids(s, t, n);
    }
  }

  /** The middle tree without its left subtree joins the right part. */
  lemma LinkLeftParts(lc: Spine, t: Shape, rc: Spine, x: Elm?, y: Elm?, nodes: set<Elm?>)
    requires Apart(lc, t, rc) && t.Node? && nodes == Around(lc) + Items(t) + Around(rc)
    ensures var rc' := Below(Left, rc, t);
      && Apart(lc, t.left, rc') && nodes == Around(lc) + Items(t.left) + Around(rc')
      && t.item in nodes && (rc.Hole? ==> rc.item in nodes)
      && KidsIn(lc, t, rc, x, y, t.item) == (Root(t.left, null), Root(t.right, null))
      && forall n :: n in nodes ==>
        KidsIn(lc, t.left, rc', x, Root(t.left, null), n)
          == var f := KidsIn(lc, t, rc, x, y, n); if rc.Hole? && n == rc.item then (t.item, f.1) else f
  {
    var rc' := Below(Left, rc, t);
    assert rc.Hole? ==> rc.side == Left;
    forall n | n in nodes
      ensures KidsIn(lc, t.left, rc', x, Root(t.left, null), n)
        == var f := KidsIn(lc, t, rc, x, y, n); if rc.Hole? && n == rc.item then (t.item, f.1) else f
    {
      if n in Items(t) {
        ParentAside(t.left, t.item, n);
        ParentAside(t.right, t.item, n);
      } else if n in Around(rc) {
        assert n in Around(rc') && n != t.item && n !in Items(t.right);
        assert KidsAround(rc', Root(t.left, null), n) == KidsAround(rc, t.item, n);
      }
    }
  }

  /** The middle tree without its right subtree joins the left part. */
  lemma LinkRightParts(lc: Spine, t: Shape, rc: Spine, x: Elm?, y: Elm?, nodes: set<Elm?>)
    requires Apart(lc, t, rc) && t.Node? && nodes == Around(lc) + Items(t) + Around(rc)
    ensures var lc' := Below(Right, lc, t);
      && Apart(lc', t.right, rc) && nodes == Around(lc') + Items(t.right) + Around(rc)
      && t.item in nodes && (lc.Hole? ==> lc.item in nodes)
      && KidsIn(lc, t, rc, x, y, t.item) == (Root(t.left, null), Root(t.right, null))
      && forall n :: n in nodes ==>
        KidsIn(lc', t.right, rc, Root(t.right, null), y, n)
          == var f := KidsIn(lc, t, rc, x, y, n); if lc.Hole? && n == lc.item then (f.0, t.item) else f
  {
    var lc' := Below(Right, lc, t);
    assert lc.Hole? ==> lc.side == Right;
    forall n | n in nodes
      ensures KidsIn(lc', t.right, rc, Root(t.right, null), y, n)
        == var f := KidsIn(lc, t, rc, x, y, n); if lc.Hole? && n == lc.item then (f.0, t.item) else f
    {
      if n in Items(t) {
        ParentAside(t.left, t.item, n);
        ParentAside(t.right, t.item, n);
      } else if n in Around(lc) {
        assert n in Around(lc') && n != t.item && n !in Items(t.left);
        assert KidsAround(lc', Root(t.right, null), n) == KidsAround(lc, t.item, n);
      }
    }
  }

  /** The tree that the three parts are put together to. */
  function Assembled(lc: Spine, t: Shape, rc: Spine): Shape
    requires t.Node?
  {
    Node((), Plug(lc, t.left), t.item, Plug(rc, t.right))
  }

  lemma AssembledKids(lc: Spine, t: Shape, rc: Spine, x: Elm?, y: Elm?, nodes: set<Elm?>)
    requires Apart(lc, t, rc) && t.Node? && nodes == Around(lc) + Items(t) + Around(rc)
    ensures var u := Assembled(lc, t, rc);
      && Distinct(u) && Items(u) == nodes && t.item in nodes && Root(u, null) == t.item
      && (lc.Hole? ==> lc.item in nodes && lc.item != t.item)
      && (rc.Hole? ==> rc.item in nodes && rc.item != t.item)
      && KidsIn(lc, t, rc, x, y, t.item) == (Root(t.left, null), Root(t.right, null))
      && forall n :: n in nodes ==>
        var f := KidsIn(lc, t, rc, x, y, n);
        KidsOf(u, n) ==
          if n == t.item then (Crown(lc, Root(t.left, null)), Crown(rc, Root(t.right, null)))
          else if lc.Hole? && n == lc.item then (f.0, Root(t.left, null))
          else if rc.Hole? && n == rc.item then (Root(t.right, null), f.1)
          else f
  {
    var u := Assembled(lc, t, rc);
    PlugSeparate(lc, t.left);
    PlugSeparate(rc, t.right);
    CrownPlug(lc, t.left);
    CrownPlug(rc, t.right);
    assert (lc.Hole? ==> lc.side == Right) && (rc.Hole? ==> rc.side == Left);
    forall n | n in nodes
      ensures var f := KidsIn(lc, t, rc, x, y, n);
        KidsOf(u, n) ==
          if n == t.item then (Crown(lc, Root(t.left, null)), Crown(rc, Root(t.right, null)))
          else if lc.Hole? && n == lc.item then (f.0, Root(t.left, null))
          else if rc.Hole? && n == rc.item then (Root(t.right, null), f.1)
          else f
    {
      ParentAside(t.left, t.item, n);
      ParentAside(t.right, t.item, n);
      if n in Items(u.left) {
        ParentAside(u.left, t.item, n);
        PlugCell(lc, t.left, null, n);
        ParentAside(t.left, Parent(lc, null), n);
      } else if n in Items(u.right) {
        ParentAside(u.right, t.item, n);
        PlugCell(rc, t.right, null, n);
        ParentAside(t.right, Parent(rc, null), n);
      }
    }
  }

  lemma AssembledSides(lc: Spine, t: Shape, rc: Spine)
    requires t.Node? && After(lc) == [] && Before(rc) == []
    ensures InOrder(Plug(lc, t.left)) == Before(lc) + InOrder(t.left)
    ensures InOrder(Plug(rc, t.right)) == InOrder(t.right) + After(rc)
  {
    PlugInOrder(lc, t.left);
    PlugInOrder(rc, t.right);
  }

  /** Putting the parts together restores the sequence they were cut from. */
  lemma AssembledOrder(lc: Spine, t: Shape, rc: Spine)
    requires t.Node? && After(lc) == [] && Before(rc) == []
    ensures InOrder(Assembled(lc, t, rc)) == Before(lc) + InOrder(t) + After(rc)
  {
    AssembledSides(lc, t, rc);
    hide Plug;
    assert InOrder(Assembled(lc, t, rc)) == (Before(lc) + InOrder(t.left)) + [t.item] + (InOrder(t.right) + After(rc));
    Regroup(Before(lc), InOrder(t.left), [t.item], InOrder(t.right), After(rc));
  }

  /** The links of a node do not depend on what is above the tree. */
  lemma ParentAside(t: Shape, p: Elm?, n: Elm?)
    ensures n in Items(t) ==> var f := CellOf(t, p, null, n); KidsOf(t, n) == (f.left, f.right)
  {
  }

  /** The keys rise strictly. */
  ghost predicate Sorted(s: seq<Elm?>) {
    null !in s && forall i, j :: 0 <= i < j < |s| ==> s[i].key < s[j].key
  }

  /** Place `k` is where `key` is or, if it is absent, next to where it would be. */
  ghost predicate Centered(s: seq<Elm?>, k: nat, key: int) {
    && k < |s| && null !in s
    && (forall i :: 0 <= i < k ==> s[i].key < key)
    && (forall i :: k < i < |s| ==> key < s[i].key)
  }

  class Head {
    var root: Elm?
    ghost var shape: Shape
    ghost var nodes: set<Elm?>
    ghost var order: seq<Elm?>

    ghost predicate Linked()
      reads `root, `shape, `nodes, nodes`left, nodes`right
    {
      && nodes == Items(shape) && Distinct(shape) && null !in nodes
      && root == Root(shape, null)
      && forall n :: n in nodes ==> n != null && n.Kids() == KidsOf(shape, n)
    }

    /** A search tree of the elements `order`. */
    ghost predicate Ready()
      reads `root, `shape, `nodes, nodes`left, nodes`right, `order
    {
      Linked() && order == InOrder(shape) && Sorted(order)
    }

    constructor Init()
      ensures Ready() && order == []
    {
      root := null;
      shape, nodes, order := Leaf, {}, [];
    }

    /**
     Inside the loop: the middle tree `t` hangs from the head; the left part is the spine `lc`, which
     hangs from the right link of `dummy` and is open at the right link of `left`; the right part is
     the mirror image.
     */
    ghost predicate Parts(dummy: Elm, left: Elm, right: Elm, lc: Spine, t: Shape, rc: Spine)
      reads `root, `nodes, nodes`left, nodes`right, dummy`left, dummy`right
    {
      && Apart(lc, t, rc) && nodes == Around(lc) + Items(t) + Around(rc) && null !in nodes && dummy !in nodes
      && root == Root(t, null)
      && left == (if lc.Top? then dummy else lc.item) && right == (if rc.Top? then dummy else rc.item)
      && left in nodes + {dummy} && right in nodes + {dummy}
      && dummy.right == Crown(lc, left.right) && dummy.left == Crown(rc, right.left)
      && (forall n :: n in nodes ==> n != null && n.Kids() == KidsIn(lc, t, rc, left.right, right.left, n))
    }

    /** SPLAY_ROTATE_RIGHT */
    method RotateRight(tmp: Elm, ghost dummy: Elm, ghost left: Elm, ghost right: Elm, ghost lc: Spine, ghost t: Shape,
      ghost rc: Spine)
      requires Parts(dummy, left, right, lc, t, rc) && t.Node? && t.left.Node? && tmp == t.left.item
      modifies this`root, nodes`left, nodes`right
      ensures Parts(dummy, left, right, lc, Rotate(Left, t), rc)
    {
      RotatedParts(Left, lc, t, rc, left.right, right.left, nodes);
      assert tmp in nodes && root in nodes && left !in {root, tmp} && right !in {root, tmp};
      assert tmp.Kids() == KidsIn(lc, t, rc, left.right, right.left, tmp);
      assert root.Kids() == KidsIn(lc, t, rc, left.right, right.left, root);
      root.left := tmp.right;
      tmp.right := root;
      root := tmp;
    }

    /** SPLAY_LINKLEFT */
    method LinkLeft(tmp: Elm, ghost dummy: Elm, ghost left: Elm, ghost lc: Spine, ghost t: Shape, ghost rc: Spine)
      returns (right: Elm)
      requires Parts(dummy, left, tmp, lc, t, rc) && t.Node?
      modifies this`root, nodes`left, dummy`left
      ensures Parts(dummy, left, right, lc, t.left, Below(Left, rc, t))
    {
      LinkLeftParts(lc, t, rc, left.right, tmp.left, nodes);
      assert root in nodes && root.Kids() == KidsIn(lc, t, rc, left.right, tmp.left, root);
      tmp.left := root;
      right := root;
      root := root.left;
    }

    /** SPLAY_ROTATE_LEFT */
    method RotateLeft(tmp: Elm, ghost dummy: Elm, ghost left: Elm, ghost right: Elm, ghost lc: Spine, ghost t: Shape,
      ghost rc: Spine)
      requires Parts(dummy, left, right, lc, t, rc) && t.Node? && t.right.Node? && tmp == t.right.item
      modifies this`root, nodes`left, nodes`right
      ensures Parts(dummy, left, right, lc, Rotate(Right, t), rc)
    {
      RotatedParts(Right, lc, t, rc, left.right, right.left, nodes);
      assert tmp in nodes && root in nodes && left !in {root, tmp} && right !in {root, tmp};
      assert tmp.Kids() == KidsIn(lc, t, rc, left.right, right.left, tmp);
      assert root.Kids() == KidsIn(lc, t, rc, left.right, right.left, root);
      root.right := tmp.left;
      tmp.left := root;
      root := tmp;
    }

    /** SPLAY_LINKRIGHT */
    method LinkRight(tmp: Elm, ghost dummy: Elm, ghost right: Elm, ghost lc: Spine, ghost t: Shape, ghost rc: Spine)
      returns (left: Elm)
      requires Parts(dummy, tmp, right, lc, t, rc) && t.Node?
      modifies this`root, nodes`right, dummy`right
      ensures Parts(dummy, left, right, Below(Right, lc, t), t.right, rc)
    {
      LinkRightParts(lc, t, rc, tmp.right, right.left, nodes);
      assert root in nodes && root.Kids() == KidsIn(lc, t, rc, tmp.right, right.left, root);
      tmp.right := root;
      left := root;
      root := root.right;
    }

    /** SPLAY_ASSEMBLE */
    method AssembleLinks(dummy: Elm, left: Elm, right: Elm, ghost S: set<Elm?>)
      requires root in S && root != null && {left, right} <= S + {dummy} && dummy !in S && root !in {left, right}
      modifies S`left, S`right, dummy`left, dummy`right
      ensures root.Kids() ==
        (if left == dummy then old(root.left) else old(dummy.right),
         if right == dummy then old(root.right) else old(dummy.left))
      ensures forall n :: n in S && n != root && n != null ==>
        n.Kids() ==
          (if n == right then old(root.right) else old(n.left),
           if n == left then old(root.left) else old(n.right))
    {
      left.right := root.left;
      right.left := root.right;
      root.left := dummy.right;
      root.right := dummy.left;
    }

    method Assemble(dummy: Elm, left: Elm, right: Elm, ghost lc: Spine, ghost t: Shape, ghost rc: Spine)
      requires Parts(dummy, left, right, lc, t, rc) && t.Node?
      modifies this`shape, nodes`left, nodes`right, dummy`left, dummy`right
      ensures Linked() && shape == Assembled(lc, t, rc)
    {
      hide Items, Distinct, Assembled, KidsOf, InOrder;
      AssembledKids(lc, t, rc, left.right, right.left, nodes);
      assert root.Kids() == KidsIn(lc, t, rc, left.right, right.left, root);
      AssembleLinks(dummy, left, right, nodes);
      shape := Assembled(lc, t, rc);
    }

    /** What is in the left part is below `key` and what is in the right part is above. */
    ghost predicate Brackets(lc: Spine, t: Shape, rc: Spine, key: int)
      reads `order
    {
      && order == Before(lc) + InOrder(t) + After(rc) && Sorted(order)
      && (forall i :: 0 <= i < |Before(lc)| ==> order[i].key < key)
      && (forall i :: |order| - |After(rc)| <= i < |order| ==> key < order[i].key)
    }

    /** The node at the top of the middle tree, and what its key says about the rest. */
    lemma BracketsRoot(lc: Spine, t: Shape, rc: Spine, key: int)
      requires Brackets(lc, t, rc, key) && t.Node?
      ensures var k := |Before(lc)| + |InOrder(t.left)|;
        && k < |order| && order[k] == t.item && t.item != null && |order| == k + 1 + |InOrder(t.right)| + |After(rc)|
        && (t.item.key < key ==> forall i :: 0 <= i <= k ==> order[i].key < key)
        && (key < t.item.key ==> forall i :: k <= i < |order| ==> key < order[i].key)
    {
      var k := |Before(lc)| + |InOrder(t.left)|;
      Regroup(Before(lc), InOrder(t.left), [t.item], InOrder(t.right), After(rc));
      assert order[k] == t.item;
    }

    lemma BracketsBelow(lc: Spine, t: Shape, rc: Spine, key: int)
      requires Brackets(lc, t, rc, key) && t.Node? && t.item != null
      ensures key < t.item.key ==> Brackets(lc, t.left, Below(Left, rc, t), key)
      ensures t.item.key < key ==> Brackets(Below(Right, lc, t), t.right, rc, key)
    {
      BracketsRoot(lc, t, rc, key);
      Regroup(Before(lc), InOrder(t.left), [t.item], InOrder(t.right), After(rc));
    }

    /** What the program sees at the top of the middle tree. */
    lemma Look(dummy: Elm, left: Elm, right: Elm, lc: Spine, t: Shape, rc: Spine)
      requires Parts(dummy, left, right, lc, t, rc) && t.Node?
      ensures t.item in nodes && root == t.item && root != null && After(lc) == [] && Before(rc) == []
      ensures root.left == Root(t.left, null) && (root.left == null <==> t.left.Leaf?)
      ensures root.right == Root(t.right, null) && (root.right == null <==> t.right.Leaf?)
    {
      assert t.item in nodes && t.item.Kids() == KidsIn(lc, t, rc, left.right, right.left, t.item);
    }

    lemma BracketsRotated(s: Side, lc: Spine, t: Shape, rc: Spine, key: int)
      requires Brackets(lc, t, rc, key) && t.Node? && Child(s, t).Node?
      ensures Brackets(lc, Rotate(s, t), rc, key)
    {
      RotateInOrder(s, t);
    }

    /** When the search ends at the middle tree, its root is where the key is or would be. */
    lemma BracketsEnd(lc: Spine, t: Shape, rc: Spine, key: int)
      requires Brackets(lc, t, rc, key) && t.Node? && t.item != null
      requires key == t.item.key || (key < t.item.key && t.left.Leaf?) || (t.item.key < key && t.right.Leaf?)
      ensures Centered(order, |Before(lc) + InOrder(t.left)|, key) && order[|Before(lc) + InOrder(t.left)|] == t.item
    {
      BracketsRoot(lc, t, rc, key);
    }

    /** A pass of the loop with `elm` below the root; `stop` is the break. */
    method PassLeft(elm: Elm, tmp: Elm, ghost dummy: Elm, ghost left: Elm, ghost lc: Spine, ghost t: Shape,
      ghost rc: Spine)
      returns (right: Elm, stop: bool, ghost t': Shape, ghost rc': Spine)
      requires Parts(dummy, left, tmp, lc, t, rc) && Brackets(lc, t, rc, elm.key)
      requires t.Node? && t.item != null && elm.key < t.item.key
      modifies this`root, nodes`left, nodes`right, dummy`left
      ensures Parts(dummy, left, right, lc, t', rc') && Brackets(lc, t', rc', elm.key)
      ensures t'.Node? && root == t'.item && root != null
      ensures if stop then elm.key < root.key && t'.left.Leaf? else t' < t
    {
      hide Linked, Sorted, Centered, Apart, KidsIn, KidsOf;
      right, stop, t', rc' := tmp, true, t, rc;
      Look(dummy, left, right, lc, t, rc);
      var next := root.left;
      if next == null {
        return;
      }
      if elm.key < next.key {
        BracketsRotated(Left, lc, t, rc, elm.key);
        RotateRight(next, dummy, left, right, lc, t, rc);
        t' := Rotate(Left, t);
        Look(dummy, left, right, lc, t', rc);
        if root.left == null {
          return;
        }
      }
      BracketsBelow(lc, t', rc, elm.key);
      right := LinkLeft(right, dummy, left, lc, t', rc);
      rc', t', stop := Below(Left, rc, t'), t'.left, false;
      Look(dummy, left, right, lc, t', rc');
    }

    /** A pass of the loop with `elm` above the root. */
    method PassRight(elm: Elm, tmp: Elm, ghost dummy: Elm, ghost right: Elm, ghost lc: Spine, ghost t: Shape,
      ghost rc: Spine)
      returns (left: Elm, stop: bool, ghost t': Shape, ghost lc': Spine)
      requires Parts(dummy, tmp, right, lc, t, rc) && Brackets(lc, t, rc, elm.key)
      requires t.Node? && t.item != null && elm.key > t.item.key
      modifies this`root, nodes`left, nodes`right, dummy`right
      ensures Parts(dummy, left, right, lc', t', rc) && Brackets(lc', t', rc, elm.key)
      ensures t'.Node? && root == t'.item && root != null
      ensures if stop then elm.key > root.key && t'.right.Leaf? else t' < t
    {
      hide Linked, Sorted, Centered, Apart, KidsIn, KidsOf;
      left, stop, t', lc' := tmp, true, t, lc;
      Look(dummy, left, right, lc, t, rc);
      var next := root.right;
      if next == null {
        return;
      }
      if elm.key > next.key {
        BracketsRotated(Right, lc, t, rc, elm.key);
        RotateLeft(next, dummy, left, right, lc, t, rc);
        t' := Rotate(Right, t);
        Look(dummy, left, right, lc, t', rc);
        if root.right == null {
          return;
        }
      }
      BracketsBelow(lc, t', rc, elm.key);
      left := LinkRight(left, dummy, right, lc, t', rc);
      lc', t', stop := Below(Right, lc, t'), t'.right, false;
      Look(dummy, left, right, lc', t', rc);
    }

    /** The end of the loop. */
    method Finish(ghost key: int, dummy: Elm, left: Elm, right: Elm, ghost lc: Spine, ghost t: Shape, ghost rc: Spine)
      returns (ghost k: nat)
      requires Parts(dummy, left, right, lc, t, rc) && Brackets(lc, t, rc, key) && t.Node? && t.item != null
      requires key == t.item.key || (key < t.item.key && t.left.Leaf?) || (t.item.key < key && t.right.Leaf?)
      modifies this`shape, nodes`left, nodes`right, dummy`left, dummy`right
      ensures Ready() && shape.Node? && k == |InOrder(shape.left)|
      ensures root != null && Centered(order, k, key) && order[k] == root
    {
      hide Linked, Sorted, Centered, Apart, KidsIn, KidsOf;
      Look(dummy, left, right, lc, t, rc);
      BracketsEnd(lc, t, rc, key);
      AssembledSides(lc, t, rc);
      AssembledOrder(lc, t, rc);
      k := |Before(lc) + InOrder(t.left)|;
      Assemble(dummy, left, right, lc, t, rc);
    }

    /** SPLAY: the node at the root becomes the one with the key of `elm`, if there is one. */
    method Splay(elm: Elm) returns (ghost k: nat)
      requires Ready() && root != null
      modifies this`root, this`shape, nodes`left, nodes`right
      ensures Ready() && shape.Node? && k == |InOrder(shape.left)|
      ensures root != null && Centered(order, k, elm.key) && order[k] == root
    {
      hide Linked, Sorted, Centered, Apart, KidsIn, KidsOf;
      var dummy := new Elm(0);
      var left, right, stop := dummy, dummy, false;
      ghost var lc: Spine, t, rc: Spine := Top, shape, Top;
      Start(dummy, elm.key);
      while !stop && elm.key != root.key
        invariant Parts(dummy, left, right, lc, t, rc) && Brackets(lc, t, rc, elm.key)
        invariant t.Node? && root == t.item && root != null && fresh(dummy)
        invariant stop ==> (elm.key < root.key && t.left.Leaf?) || (elm.key > root.key && t.right.Leaf?)
        decreases !stop, t
      {
        if elm.key < root.key {
          right, stop, t, rc := PassLeft(elm, right, dummy, left, lc, t, rc);
        } else {
          left, stop, t, lc := PassRight(elm, left, dummy, right, lc, t, rc);
        }
      }
      k := Finish(elm.key, dummy, left, right, lc, t, rc);
    }

    /** Before the loop: both spines are empty. */
    lemma Start(dummy: Elm, key: int)
      requires Ready() && root != null && dummy !in nodes
      ensures Parts(dummy, dummy, dummy, Top, shape, Top) && shape.Node? && root == shape.item
      ensures Brackets(Top, shape, Top, key)
    {
      assert order == [] + order + [];
    }

    /** What the program sees at the root. */
    lemma LookRoot()
      requires Linked()
      ensures null !in nodes && (root == null <==> shape.Leaf?)
      ensures shape.Node? ==>
        && root == shape.item && root in nodes
        && root.left == Root(shape.left, null) && (root.left == null <==> shape.left.Leaf?)
        && root.right == Root(shape.right, null) && (root.right == null <==> shape.right.Leaf?)
    {
      if shape.Node? {
        assert shape.item in nodes && shape.item.Kids() == KidsOf(shape, shape.item);
      }
    }

    /** SPLAY_FIND */
    method Find(elm: Elm) returns (r: Elm?)
      requires Ready()
      modifies this`root, this`shape, nodes`left, nodes`right
      ensures Ready()
      ensures r == null ==> forall i :: 0 <= i < |order| ==> order[i].key != elm.key
      ensures r != null ==> r == root && r in order && r.key == elm.key
    {
      LookRoot();
      if root == null {
        return null;
      }
      var k := Splay(elm);
      r := if elm.key == root.key then root else null;
    }

    /** The new node above the old root, which gives it its left or its right subtree. */
    static function Topped(s: Side, t: Shape, n: Elm?): Shape
      requires t.Node?
    {
      Make(s, (), Child(s, t), n, Make(s, (), Leaf, t.item, Child(s.Other(), t)))
    }

    static lemma ToppedKid(s: Side, t: Shape, n: Elm?, m: Elm?)
      requires Distinct(t) && t.Node? && n !in Items(t) && m in Items(t)
      ensures m in Items(Topped(s, t, n))
      ensures var f := KidsOf(t, m);
        KidsOf(Topped(s, t, n), m) == if m != t.item then f else if s == Left then (null, f.1) else (f.0, null)
    {
      var u := Topped(s, t, n);
      var near, far := Child(s, u), Child(s.Other(), u);
      ParentAside(near, n, m);
      ParentAside(far, n, m);
      ParentAside(near, t.item, m);
      ParentAside(Child(s.Other(), t), t.item, m);
      match s
      case Left =>
        assert KidsOf(u, m) == if m in Items(near) then KidsOf(near, m) else KidsOf(far, m);
      case Right =>
        assert KidsOf(u, m) == if m in Items(far) then KidsOf(far, m) else KidsOf(near, m);
    }

    static lemma ToppedItems(s: Side, t: Shape, n: Elm?)
      requires Distinct(t) && t.Node? && n !in Items(t)
      ensures var u := Topped(s, t, n); Distinct(u) && Items(u) == Items(t) + {n}
    {
      var u := Topped(s, t, n);
      match s
      case Left =>
        assert Items(u.right) == {t.item} + Items(t.right);
      case Right =>
        assert Items(u.left) == {t.item} + Items(t.left);
    }

    static lemma ToppedKids(s: Side, t: Shape, n: Elm?)
      requires Distinct(t) && t.Node? && n !in Items(t)
      ensures var u := Topped(s, t, n);
        && n in Items(u) && Items(t) <= Items(u)
        && KidsOf(u, n) == (if s == Left then (Root(t.left, null), t.item) else (t.item, Root(t.right, null)))
        && forall m :: m in Items(t) ==>
          var f := KidsOf(t, m);
          KidsOf(u, m) == if m != t.item then f else if s == Left then (null, f.1) else (f.0, null)
    {
      var u := Topped(s, t, n);
      hide Distinct;
      forall m | m in Items(t)
        ensures m in Items(u)
        ensures var f := KidsOf(t, m);
          KidsOf(u, m) == if m != t.item then f else if s == Left then (null, f.1) else (f.0, null)
      {
        ToppedKid(s, t, n, m);
      }
    }

    static lemma FromRoot(t: Shape)
      requires t.Node?
      ensures InOrder(t) == InOrder(t.left) + ([t.item] + InOrder(t.right))
      ensures t.left.Leaf? ==> InOrder(t) == [t.item] + InOrder(t.right)
      ensures t.right.Leaf? ==> InOrder(t) == InOrder(t.left) + [t.item]
    {
      Reassociated(InOrder(t.left), [t.item], InOrder(t.right));
    }

    static lemma ToppedLeft(t: Shape, n: Elm?)
      requires t.Node?
      ensures |InOrder(t.left)| < |InOrder(t)|
        && InOrder(Topped(Left, t, n)) == Inserted(InOrder(t), |InOrder(t.left)|, n)
    {
      var u := Topped(Left, t, n);
      FromRoot(t);
      FromRoot(u.right);
      assert InOrder(u) == InOrder(t.left) + [n] + ([t.item] + InOrder(t.right));
      hide InOrder, Inserted, Topped;
      InsertedMiddle(InOrder(t.left), n, [t.item] + InOrder(t.right));
    }

    static lemma ToppedRight(t: Shape, n: Elm?)
      requires t.Node?
      ensures |InOrder(t.left)| < |InOrder(t)|
        && InOrder(Topped(Right, t, n)) == Inserted(InOrder(t), |InOrder(t.left)| + 1, n)
    {
      var u, r := Topped(Right, t, n), InOrder(t.right);
      FromRoot(u.left);
      assert InOrder(t) == InOrder(u.left) + r && InOrder(u) == InOrder(u.left) + [n] + r;
      assert |InOrder(u.left)| == |InOrder(t.left)| + 1;
      hide InOrder, Inserted, Topped;
      InsertedMiddle(InOrder(u.left), n, r);
    }

    /** `elm` becomes the root, the old root its child on the other side from `side`. */
    method PutOnTop(elm: Elm, side: Side)
      requires Linked() && root != null && elm !in nodes
      modifies this`root, this`shape, this`nodes, elm`left, elm`right, nodes`left, nodes`right
      ensures Linked() && shape == Topped(side, old(shape), elm) && nodes == old(nodes) + {elm}
    {
      LookRoot();
      ToppedItems(side, shape, elm);
      ToppedKids(side, shape, elm);
      if side == Left {
        elm.left := root.left;
        elm.right := root;
        root.left := null;
      } else {
        elm.right := root.right;
        elm.left := root;
        root.right := null;
      }
      root := elm;
      shape, nodes := Topped(side, shape, elm), nodes + {elm};
    }

    static lemma SortedInserted(s: seq<Elm?>, k: nat, elm: Elm)
      requires Sorted(s) && Centered(s, k, elm.key) && s[k].key != elm.key
      ensures var i := if elm.key < s[k].key then k else k + 1;
        i <= |s| && Sorted(Inserted(s, i, elm)) && forall j :: 0 <= j < |s| ==> s[j].key != elm.key
    {
      var i := if elm.key < s[k].key then k else k + 1;
      assert forall j :: 0 <= j < |s| ==> (s[j].key < elm.key <==> j < i);
    }

    /** SPLAY_INSERT: `elm` joins at its place `k`, unless an element with its key is there and is returned. */
    method Insert(elm: Elm) returns (found: Elm?, ghost k: nat)
      requires Ready() && elm !in nodes
      modifies this, nodes`left, nodes`right, elm`left, elm`right
      ensures Ready() && k <= |old(order)|
      ensures found != null ==> order == old(order) && nodes == old(nodes) && found in order && found.key == elm.key
      ensures found == null ==> order == Inserted(old(order), k, elm) && nodes == old(nodes) + {elm}
      ensures found == null ==> forall i :: 0 <= i < |old(order)| ==> old(order)[i].key != elm.key
    {
      hide Linked, Sorted, Centered;
      LookRoot();
      if root == null {
        k := Plant(elm);
        return null, k;
      }
      k := Splay(elm);
      var comp := elm.key - root.key;
      if comp == 0 {
        return root, k;
      }
      SortedInserted(order, k, elm);
      if comp < 0 {
        ToppedLeft(shape, elm);
        PutOnTop(elm, Left);
      } else {
        ToppedRight(shape, elm);
        PutOnTop(elm, Right);
        k := k + 1;
      }
      order := Inserted(order, k, elm);
      found := null;
    }

    /** The first element. */
    method Plant(elm: Elm) returns (ghost k: nat)
      requires Ready() && root == null
      modifies this, elm`left, elm`right
      ensures Ready() && k == 0 && old(order) == [] && order == Inserted(old(order), 0, elm)
        && nodes == old(nodes) + {elm}
    {
      elm.left, elm.right := null, null;
      root := elm;
      shape, nodes, order := Node((), Leaf, elm, Leaf), {elm}, [elm];
      k := 0;
    }

    static lemma SortedParts(a: seq<Elm?>, x: Elm?, b: seq<Elm?>)
      requires Sorted(a + [x] + b)
      ensures Sorted(a) && Sorted(b)
    {
      var s := a + [x] + b;
      assert forall i :: 0 <= i < |a| ==> s[i] == a[i];
      assert forall i :: 0 <= i < |b| ==> s[|a| + 1 + i] == b[i];
    }

    static lemma SubtreeKids(s: Side, t: Shape, n: Elm?)
      requires Distinct(t) && t.Node? && n in Items(Child(s, t))
      ensures n in Items(t) && n != t.item && KidsOf(t, n) == KidsOf(Child(s, t), n)
    {
      ParentAside(Child(s, t), t.item, n);
      match s
      case Left =>
      case Right =>
    }

    /** The head takes over one subtree of the root. */
    method Descend(side: Side)
      requires Ready() && root != null
      modifies this
      ensures Ready() && shape == Child(side, old(shape)) && nodes == Items(shape)
      ensures nodes <= old(nodes) - {old(root)} && (root != null <==> shape.Node?)
      ensures root == if side == Left then old(root.left) else old(root.right)
    {
      LookRoot();
      SortedParts(InOrder(shape.left), shape.item, InOrder(shape.right));
      forall n | n in nodes && n in Items(Child(side, shape))
        ensures n != null && n.Kids() == KidsOf(Child(side, shape), n)
      {
        SubtreeKids(side, shape, n);
      }
      root := if side == Left then root.left else root.right;
      nodes := set n | n in nodes && n in Items(Child(side, shape));
      order := InOrder(Child(side, shape));
      shape := Child(side, shape);
    }

    /** Hangs the tree `t`, made of the nodes `others`, under the root, which has no right child. */
    method Graft(tmp: Elm?, ghost t: Shape, ghost others: set<Elm?>)
      requires Linked() && shape.Node? && shape.right.Leaf? && tmp == Root(t, null)
      requires Distinct(t) && others == Items(t) && others !! nodes && null !in others
      requires forall n :: n in others ==> n != null && n.Kids() == KidsOf(t, n)
      modifies this`shape, this`nodes, nodes`right
      ensures Linked() && shape == old(shape).(right := t) && nodes == old(nodes) + others
    {
      LookRoot();
      ghost var u := shape.(right := t);
      forall n | n in nodes + others
        ensures n in Items(u)
        ensures KidsOf(u, n) ==
          if n in others then KidsOf(t, n)
          else if n == shape.item then (Root(shape.left, null), tmp)
          else KidsOf(shape, n)
      {
        ParentAside(u.left, u.item, n);
        ParentAside(t, u.item, n);
      }
      root.right := tmp;
      shape, nodes := u, nodes + others;
    }

    lemma InTree(elm: Elm)
      requires Ready()
      ensures elm in nodes <==> elm in order
      ensures forall i :: 0 <= i < |order| && order[i].key == elm.key ==> (order[i] == elm <==> elm in nodes)
    {
      InOrderMember(shape, elm as Elm?);
      assert elm in nodes <==> elm in order;
      hide Linked;
      if elm in order {
        var j :| 0 <= j < |order| && order[j] == elm;
        assert forall i :: 0 <= i < |order| && order[i].key == elm.key ==> i == j;
      }
    }

    /**
     SPLAY_REMOVE: the element with the key of `elm` leaves and `elm` itself is returned.  They are the same
     exactly if `elm` was in the tree.
     */
    method Remove(elm: Elm) returns (r: Elm?, ghost k: nat)
      requires Ready()
      modifies this, nodes`left, nodes`right
      ensures Ready()
      ensures r == null ==>
        && order == old(order) && nodes == old(nodes)
        && forall i :: 0 <= i < |order| ==> order[i].key != elm.key
      ensures r != null ==>
        && r == elm && k < |old(order)| && old(order)[k].key == elm.key
        && order == Removed(old(order), k) && nodes == old(nodes) - {old(order)[k]}
        && (r == old(order)[k] <==> elm in old(nodes))
    {
      InTree(elm);
      hide Linked, Sorted;
      LookRoot();
      k := 0;
      if root == null {
        return null, 0;
      }
      k := Splay(elm);
      if elm.key != root.key {
        return null, k;
      }
      LookRoot();
      if root.left == null {
        DropRoot();
      } else {
        JoinSubtrees(elm, k);
      }
      r := elm;
    }

    /** A tree with one element; another element with its key takes it out, and is returned in its place. */
    method RemoveTwin(member: Elm, twin: Elm) returns (ghost was: seq<Elm?>, r: Elm?)
      requires Ready() && order == [] && member != twin && member.key == twin.key
      modifies this, member`left, member`right, nodes`left, nodes`right
      ensures was == [member] && Ready() && order == [] && r == twin
    {
      InTree(member);
      hide Linked, Sorted;
      var found, i := Insert(member);
      was := order;
      ghost var k;
      r, k := Remove(twin);
    }

    /** The root leaves and has no left child. */
    method DropRoot()
      requires Ready() && shape.Node? && shape.left.Leaf?
      modifies this
      ensures Ready() && old(order) != [] && order == Removed(old(order), 0) && nodes == old(nodes) - {old(order)[0]}
    {
      LookRoot();
      assert InOrder(shape.left) == [] && InOrder(shape) == InOrder(shape.left) + [shape.item] + InOrder(shape.right);
      assert Items(shape.right) == nodes - {shape.item};
      Descend(Right);
    }

    /** The left subtree ends in its greatest element once it is splayed for a key above all of its keys. */
    lemma NoRightChild(k: nat, key: int)
      requires Ready() && shape.Node? && k == |InOrder(shape.left)| && Centered(order, k, key)
      requires forall i :: 0 <= i < |order| ==> order[i].key < key
      ensures shape.right.Leaf?
    {
      assert |order| == k + 1 + |InOrder(shape.right)|;
      assert order[|order| - 1].key < key;
    }

    /** The left subtree, splayed for a key above all of its keys. */
    method SplayLeft(elm: Elm)
      requires Ready() && shape.Node? && shape.left.Node?
      requires Centered(order, |InOrder(shape.left)|, elm.key)
      modifies this, nodes`left, nodes`right
      ensures Ready() && order == InOrder(old(shape).left) && nodes == Items(old(shape).left)
      ensures shape.Node? && shape.right.Leaf?
      ensures forall n :: n in old(nodes) && n !in Items(old(shape).left) ==> n != null && n.Kids() == old(n.Kids())
    {
      hide Linked, Sorted;
      LookRoot();
      assert order == InOrder(shape.left) + [shape.item] + InOrder(shape.right);
      assert forall i :: 0 <= i < |InOrder(shape.left)| ==> InOrder(shape.left)[i] == order[i];
      Descend(Left);
      ghost var j := Splay(elm);
      NoRightChild(j, elm.key);
    }

    static lemma GraftOrder(t: Shape, r: Shape)
      requires t.Node? && t.right.Leaf?
      ensures InOrder(t.(right := r)) == InOrder(t) + InOrder(r)
    {
      assert InOrder(t) == InOrder(t.left) + [t.item];
    }

    static lemma SortedRemoved(l: seq<Elm?>, x: Elm?, r: seq<Elm?>)
      requires Sorted(l + [x] + r)
      ensures Sorted(l + r) && l + r == Removed(l + [x] + r, |l|)
    {
      InsertedMiddle(l, x, r);
    }

    /** The nodes of the right subtree. */
    lemma RightNodes() returns (others: set<Elm?>)
      requires Linked() && shape.Node?
      ensures others == Items(shape.right) && others <= nodes && Distinct(shape.right)
      ensures others !! Items(shape.left) && nodes == Items(shape.left) + {shape.item} + others
      ensures shape.item !in others && shape.item !in Items(shape.left)
      ensures forall n :: n in others ==> n != null && n.Kids() == KidsOf(shape.right, n)
    {
      others := set n | n in nodes && n in Items(shape.right);
      forall n | n in others ensures n.Kids() == KidsOf(shape.right, n) {
        SubtreeKids(Right, shape, n);
      }
    }

    /** The root leaves, and its subtrees are joined. */
    method JoinSubtrees(elm: Elm, ghost k: nat)
      requires Ready() && shape.Node? && shape.left.Node? && k == |InOrder(shape.left)|
      requires Centered(order, k, elm.key)
      modifies this, nodes`left, nodes`right
      ensures Ready() && order == Removed(old(order), k) && nodes == old(nodes) - {old(order)[k]}
    {
      hide Linked, Sorted, Centered, KidsOf, Distinct;
      LookRoot();
      ghost var r, l, x := shape.right, shape.left, shape.item;
      assert order == InOrder(l) + [x] + InOrder(r);
      SortedRemoved(InOrder(l), x, InOrder(r));
      ghost var others := RightNodes();
      var tmp := root.right;
      SplayLeft(elm);
      GraftOrder(shape, r);
      Graft(tmp, r, others);
      order := InOrder(l) + InOrder(r);
    }
  }
}
