/** The red-black tree engine: nodes with parent links and one shared sentinel. */
module KvRbtree {
  import opened Trees
  import opened Links
  import opened RedBlack
  import opened CStrings
  import opened Sequences
  import opened Options
  import opened Pairs

  /** The keys rise strictly. */
  ghost predicate Rising(s: seq<Pair>) {
    forall i, j :: 0 <= i < j < |s| ==> StrCmp(s[i].0, s[j].0) < 0
  }

  lemma RisingUnique(s: seq<Pair>)
    requires Rising(s)
    ensures Unique(s)
  {
    forall i, j | 0 <= i < j < |s| ensures s[i].0 != s[j].0 {
      StrCmpEqual(s[i].0, s[j].0);
    }
  }

  /** The keys before `lo` are below `key` and those from `hi` on are above. */
  ghost predicate Bracketed(s: seq<Pair>, lo: int, hi: int, key: CString) {
    && 0 <= lo <= hi <= |s|
    && (forall i :: 0 <= i < lo ==> StrCmp(s[i].0, key) < 0)
    && (forall i :: hi <= i < |s| ==> StrCmp(key, s[i].0) < 0)
  }

  lemma Narrowed(s: seq<Pair>, lo: int, hi: int, k: int, key: CString)
    requires Rising(s) && Bracketed(s, lo, hi, key) && lo <= k < hi
    ensures StrCmp(key, s[k].0) < 0 ==> Bracketed(s, lo, k, key)
    ensures StrCmp(key, s[k].0) > 0 ==> Bracketed(s, k + 1, hi, key)
  {
    StrCmpSwap(s[k].0, key);
    forall i | k < i < |s| && StrCmp(key, s[k].0) < 0
      ensures StrCmp(key, s[i].0) < 0
    {
      StrCmpTransitive(key, s[k].0, s[i].0);
    }
    forall i | 0 <= i < k && StrCmp(key, s[k].0) > 0
      ensures StrCmp(s[i].0, key) < 0
    {
      StrCmpTransitive(s[i].0, s[k].0, key);
    }
  }

  /** When no key is left between the brackets, the key is absent and this is its place. */
  lemma NarrowedToNothing(s: seq<Pair>, k: nat, key: CString, value: CString)
    requires Rising(s) && Bracketed(s, k, k, key)
    ensures k <= |s| && forall i :: 0 <= i < |s| ==> s[i].0 != key
    ensures Rising(Inserted(s, k, (key, value)))
  {
    StrCmpEqual(key, key);
  }

  class RbNode {
    var color: Color
    var left: RbNode
    var right: RbNode
    var parent: RbNode
    var key: CString
    var value: CString

    function Fields(): Cell<Color, RbNode>
      reads `color, `left, `right, `parent
    {
      Cell(color, left, right, parent)
    }

    constructor New(k: CString, v: CString, nil: RbNode)
      ensures key == k && value == v
    {
      key, value := k, v;
      color, left, right, parent := Black, nil, nil, nil;
    }

    constructor Sentinel()
      ensures color == Black
    {
      color := Black;
      left, right, parent := this, this, this;
      key, value := "", "";
    }
  }

  class RbTree {
    var root: RbNode
    const nil: RbNode
    var count: int
    ghost var shape: RB<RbNode>
    ghost var nodes: set<RbNode>
    ghost var order: seq<RbNode>
    ghost var pairs: seq<Pair>

    /** The heap holds the tree `shape`. */
    ghost predicate Linked()
      reads `root, `shape, `nodes, nodes`color, nodes`left, nodes`right, nodes`parent, nil`color
    {
      && nodes == Items(shape) && Distinct(shape) && nil !in nodes && nil.color == Black
      && root == Root(shape, nil)
      && forall n :: n in nodes ==> n.Fields() == CellOf(shape, nil, nil, n)
    }

    /** A red-black search tree whose keys and values are `pairs`, from left to right. */
    ghost predicate Ready()
      reads `root, `shape, `nodes, nodes`color, nodes`left, nodes`right, nodes`parent, nil`color
      reads `order, `pairs, order`key, order`value
    {
      && Linked() && Valid(shape)
      && order == InOrder(shape) && |order| == |pairs|
      && (forall i :: 0 <= i < |order| ==> (order[i].key, order[i].value) == pairs[i])
      && Rising(pairs)
    }

    ghost predicate At(c: RBContext<RbNode>, t: RB<RbNode>)
      reads `root, `shape, `nodes, nodes`color, nodes`left, nodes`right, nodes`parent, nil`color
    {
      Linked() && shape == Plug(c, t)
    }

    constructor Create()
      ensures Ready() && shape == Leaf && count == 0 && fresh(nil)
    {
      var n := new RbNode.Sentinel();
      nil := n;
      root := n;
      count := 0;
      shape, nodes, order, pairs := Leaf, {}, [], [];
    }

    /** What the program sees at the hole. */
    lemma Look(c: RBContext<RbNode>, t: RB<RbNode>)
      requires At(c, t)
      ensures Separate(c, t) && Items(t) + Around(c) == nodes && nil !in nodes && nil.color == Black
      ensures t.Node? ==>
        && t.item in nodes && t.item != nil
        && t.item.color == t.tag && t.item.parent == Parent(c, nil)
        && t.item.left == Root(t.left, nil) && t.item.right == Root(t.right, nil)
      ensures c.Hole? ==>
        && c.item in nodes && c.item != nil
        && c.item.color == c.tag && c.item.parent == Parent(c.up, nil)
        && c.item.left == (if c.side == Left then Root(t, nil) else Root(c.sib, nil))
        && c.item.right == (if c.side == Left then Root(c.sib, nil) else Root(t, nil))
      ensures c.Hole? ==> root in Around(c) && (c.sib.Node? ==> c.sib.item != Root(t, nil))
      ensures c.Top? ==> root == Root(t, nil)
    {
      PlugSeparate(c, t);
      LookAtHole(c, t, nil);
      if c.Hole? {
        RootPlug(c, t, Leaf, nil);
        PlugSeparate(c, Leaf);
      }
    }

    method SetColor(x: RbNode, color: Color, ghost c: RBContext<RbNode>, ghost t: RB<RbNode>)
      requires At(c, t) && x == Root(t, nil) && (t.Leaf? ==> color == Black)
      modifies x`color, this`shape
      ensures At(c, Paint(t, color))
      ensures InOrder(shape) == old(InOrder(shape))
    {
      if t.Node? {
        PaintedShape(c, t, color, nil);
        shape := Plug(c, t.(tag := color));
      }
      x.color := color;
    }

    /** Names the new shape once the links of all nodes are those of `u`. */
    ghost method Reshape(u: RB<RbNode>)
      requires nodes == Items(u) && Distinct(u) && nil !in nodes && nil.color == Black && root == Root(u, nil)
      requires forall n :: n in nodes ==> n.Fields() == CellOf(u, nil, nil, n)
      modifies this`shape
      ensures Linked() && shape == u
    {
      shape := u;
    }

    method LeftRotateLinks(x: RbNode, ghost k: RbNode, ghost b: RbNode, ghost p: RbNode, ghost S: set<RbNode>)
      requires x.right == k && k.left == b && x.parent == p
      requires {x, k} <= S && {b, p} <= S + {nil} && nil !in S
      requires k !in {x, p, b} && x !in {p, b} && (b == p ==> p == nil)
      modifies this`root, S`left, S`right, S`parent
      ensures root == if p == nil then k else old(root)
      ensures forall n :: n in S ==>
        n.Fields() == Lifted(Right, x, k, b, p, old(n.Fields()), n, nil)
    {
      var y := x.right;
      x.right := y.left;
      if y.left != nil {
        y.left.parent := x;
      }
      y.parent := x.parent;
      if x.parent == nil {
        root := y;
      } else if x == x.parent.left {
        x.parent.left := y;
      } else {
        x.parent.right := y;
      }
      y.left := x;
      x.parent := y;
    }

    method LeftRotate(x: RbNode, ghost c: RBContext<RbNode>, ghost t: RB<RbNode>)
      requires At(c, t) && t.Node? && t.right.Node? && x == t.item
      modifies this`root, this`shape, nodes`left, nodes`right, nodes`parent
      ensures At(c, Rotate(Right, t))
      ensures InOrder(shape) == old(InOrder(shape))
    {
      hide Items, Distinct, CellOf, Plug;
      RotationSite(Right, c, t, nil);
      RotatedShape(Right, c, t, nil);
      LeftRotateLinks(x, t.right.item, Root(t.right.left, nil), Parent(c, nil), nodes);
      ghost var u := Plug(c, Rotate(Right, t));
      hide Linked;
      Reshape(u);
    }

    method RightRotateLinks(y: RbNode, ghost k: RbNode, ghost b: RbNode, ghost p: RbNode, ghost S: set<RbNode>)
      requires y.left == k && k.right == b && y.parent == p
      requires {y, k} <= S && {b, p} <= S + {nil} && nil !in S
      requires k !in {y, p, b} && y !in {p, b} && (b == p ==> p == nil)
      requires p != nil ==> (p.left == y) != (p.right == y)
      modifies this`root, S`left, S`right, S`parent
      ensures root == if p == nil then k else old(root)
      ensures forall n :: n in S ==>
        n.Fields() == Lifted(Left, y, k, b, p, old(n.Fields()), n, nil)
    {
      var x := y.left;
      y.left := x.right;
      if x.right != nil {
        x.right.parent := y;
      }
      x.parent := y.parent;
      if y.parent == nil {
        root := x;
      } else if y == y.parent.right {
        y.parent.right := x;
      } else {
        y.parent.left := x;
      }
      x.right := y;
      y.parent := x;
    }

    method RightRotate(y: RbNode, ghost c: RBContext<RbNode>, ghost t: RB<RbNode>)
      requires At(c, t) && t.Node? && t.left.Node? && y == t.item
      modifies this`root, this`shape, nodes`left, nodes`right, nodes`parent
      ensures At(c, Rotate(Left, t))
      ensures InOrder(shape) == old(InOrder(shape))
    {
      hide Items, Distinct, CellOf, Plug;
      RotationSite(Left, c, t, nil);
      RotatedShape(Left, c, t, nil);
      RightRotateLinks(y, t.left.item, Root(t.left.right, nil), Parent(c, nil), nodes);
      ghost var u := Plug(c, Rotate(Left, t));
      hide Linked;
      Reshape(u);
    }

    lemma LookColor(c: RBContext<RbNode>, t: RB<RbNode>)
      requires At(c, t)
      ensures Root(t, nil).color == Red <==> IsRed(t)
    {
      Look(c, t);
    }

    /** What the program sees at the sibling of the hole. */
    lemma LookAcross(c: RBContext<RbNode>, t: RB<RbNode>)
      requires At(c, t) && c.Hole?
      ensures At(Across(c, t), c.sib)
      ensures (if c.side == Left then c.item.right else c.item.left) == Root(c.sib, nil)
      ensures Root(c.sib, nil).color == Red <==> IsRed(c.sib)
    {
      Look(c, t);
      Look(Across(c, t), c.sib);
    }

    /** The parent is the left child of the grandparent and the uncle is black. */
    method InsertTurnLeft(node: RbNode, ghost c: RBContext<RbNode>, ghost t: RB<RbNode>) returns (z: RbNode)
      requires At(c, t) && IsRed(t) && node == t.item
      requires c.Hole? && c.tag == Red && c.up.Hole? && c.up.side == Left && !IsRed(c.up.sib)
      modifies this`root, this`shape
      modifies nodes`left, nodes`right, nodes`parent, nodes`color
      ensures var (c', t') := InsertStep(c, t); At(c', t') && t'.Node? && z == t'.item
      ensures InOrder(shape) == old(InOrder(shape))
    {
      hide Linked;
      z := node;
      ghost var g, pt := c.up, Grow(c, t);
      InsertStepRotates(c, t);
      Look(c, t);
      Look(g, pt);
      if z == z.parent.right {
        z := z.parent;
        LeftRotate(z, g, pt);
        pt := Rotate(Right, pt);
        Look(g, pt);
        Look(Below(Left, g, pt), pt.left);
      }
      SetColor(z.parent, Black, g, pt);
      SetColor(z.parent.parent, Red, g.up, Grow(g, Paint(pt, Black)));
      RightRotate(z.parent.parent, g.up, Paint(Grow(g, Paint(pt, Black)), Red));
    }

    /** The loop body of the insertion repair when the parent is the left child of the grandparent. */
    method InsertPassLeft(node: RbNode, ghost c: RBContext<RbNode>, ghost t: RB<RbNode>) returns (z: RbNode)
      requires At(c, t) && IsRed(t) && node == t.item
      requires c.Hole? && c.tag == Red && c.up.Hole? && c.up.side == Left
      modifies this`root, this`shape
      modifies nodes`left, nodes`right, nodes`parent, nodes`color
      ensures var (c', t') := InsertStep(c, t); At(c', t') && t'.Node? && z == t'.item
      ensures InOrder(shape) == old(InOrder(shape))
    {
      hide Linked;
      z := node;
      ghost var g, u, pt := c.up, c.up.sib, Grow(c, t);
      Look(c, t);
      Look(g, pt);
      LookAcross(g, pt);
      var y := z.parent.parent.right;
      if y.color == Red {
        SetColor(z.parent, Black, g, pt);
        SetColor(y, Black, Across(g, Paint(pt, Black)), u);
        SetColor(z.parent.parent, Red, g.up, Make(Left, g.tag, Paint(pt, Black), g.item, Paint(u, Black)));
        z := z.parent.parent;
      } else {
        z := InsertTurnLeft(z, c, t);
      }
    }

    /** The parent is the right child of the grandparent and the uncle is black. */
    method InsertTurnRight(node: RbNode, ghost c: RBContext<RbNode>, ghost t: RB<RbNode>) returns (z: RbNode)
      requires At(c, t) && IsRed(t) && node == t.item
      requires c.Hole? && c.tag == Red && c.up.Hole? && c.up.side == Right && !IsRed(c.up.sib)
      modifies this`root, this`shape
      modifies nodes`left, nodes`right, nodes`parent, nodes`color
      ensures var (c', t') := InsertStep(c, t); At(c', t') && t'.Node? && z == t'.item
      ensures InOrder(shape) == old(InOrder(shape))
    {
      hide Linked;
      z := node;
      ghost var g, pt := c.up, Grow(c, t);
      InsertStepRotates(c, t);
      Look(c, t);
      Look(g, pt);
      if z == z.parent.left {
        z := z.parent;
        RightRotate(z, g, pt);
        pt := Rotate(Left, pt);
        Look(g, pt);
        Look(Below(Right, g, pt), pt.right);
      }
      SetColor(z.parent, Black, g, pt);
      SetColor(z.parent.parent, Red, g.up, Grow(g, Paint(pt, Black)));
      LeftRotate(z.parent.parent, g.up, Paint(Grow(g, Paint(pt, Black)), Red));
    }

    /** The loop body of the insertion repair when the parent is the right child of the grandparent. */
    method InsertPassRight(node: RbNode, ghost c: RBContext<RbNode>, ghost t: RB<RbNode>) returns (z: RbNode)
      requires At(c, t) && IsRed(t) && node == t.item
      requires c.Hole? && c.tag == Red && c.up.Hole? && c.up.side == Right
      modifies this`root, this`shape
      modifies nodes`left, nodes`right, nodes`parent, nodes`color
      ensures var (c', t') := InsertStep(c, t); At(c', t') && t'.Node? && z == t'.item
      ensures InOrder(shape) == old(InOrder(shape))
    {
      hide Linked;
      z := node;
      ghost var g, u, pt := c.up, c.up.sib, Grow(c, t);
      Look(c, t);
      Look(g, pt);
      LookAcross(g, pt);
      var y := z.parent.parent.left;
      if y.color == Red {
        SetColor(z.parent, Black, g, pt);
        SetColor(y, Black, Across(g, Paint(pt, Black)), u);
        SetColor(z.parent.parent, Red, g.up, Make(Right, g.tag, Paint(pt, Black), g.item, Paint(u, Black)));
        z := z.parent.parent;
      } else {
        z := InsertTurnRight(z, c, t);
      }
    }

    method InsertFixup(node: RbNode, ghost c0: RBContext<RbNode>, ghost t0: RB<RbNode>)
      requires At(c0, t0) && InsertPending(c0, t0) && node == t0.item
      modifies this`root, this`shape
      modifies nodes`left, nodes`right, nodes`parent, nodes`color
      ensures Linked() && Valid(shape)
      ensures InOrder(shape) == old(InOrder(shape))
    {
      hide Linked;
      var z := node;
      ghost var c, t := c0, t0;
      Look(c, t);
      while z.parent.color == Red
        invariant At(c, t) && InsertPending(c, t) && z == t.item
        invariant InOrder(shape) == old(InOrder(shape))
        invariant z.parent == Parent(c, nil) && z.parent.color == Above(c)
        decreases Depth(c)
      {
        InsertStepKeeps(c, t);
        Look(c, t);
        Look(c.up, Grow(c, t));
        if z.parent == z.parent.parent.left {
          z := InsertPassLeft(z, c, t);
        } else {
          z := InsertPassRight(z, c, t);
        }
        c, t := InsertStep(c, t).0, InsertStep(c, t).1;
        Look(c, t);
      }
      InsertEnd(c, t);
      Look(Top, shape);
      SetColor(root, Black, Top, shape);
    }

    /** The hole is a left child and its sibling `w` is red. */
    method DeleteRedSiblingLeft(x: RbNode, w: RbNode, ghost c: RBContext<RbNode>, ghost t: RB<RbNode>)
      requires At(c, t) && c.Hole? && c.side == Left && IsRed(c.sib) && c.sib.left.Node?
      requires x.parent == c.item && w == c.sib.item
      modifies this`root, this`shape
      modifies nodes`left, nodes`right, nodes`parent, nodes`color
      ensures At(RedSibling(c), t)
      ensures InOrder(shape) == old(InOrder(shape))
    {
      hide Linked;
      RedSiblingRotates(c, t);
      Look(c, t);
      SetColor(w, Black, Across(c, t), c.sib);
      SetColor(x.parent, Red, c.up, Grow(c.(sib := Paint(c.sib, Black)), t));
      LeftRotate(x.parent, c.up, Paint(Grow(c.(sib := Paint(c.sib, Black)), t), Red));
    }

    /** The hole is a left child and its black sibling has a black right and a red left child. */
    method DeleteTurnSiblingLeft(w: RbNode, ghost c: RBContext<RbNode>, ghost t: RB<RbNode>)
      requires At(c, t) && c.Hole? && c.side == Left && c.sib.Node? && w == c.sib.item
      requires IsRed(c.sib.left) && !IsRed(c.sib.right)
      modifies this`root, this`shape
      modifies nodes`left, nodes`right, nodes`parent, nodes`color
      ensures At(c.(sib := OuterRed(Left, c.sib)), t)
      ensures InOrder(shape) == old(InOrder(shape))
    {
      hide Linked;
      ghost var a, s := Across(c, t), c.sib;
      Look(a, s);
      SetColor(w.left, Black, Below(Left, a, s), s.left);
      s := s.(left := Paint(s.left, Black));
      SetColor(w, Red, a, s);
      s := s.(tag := Red);
      RightRotate(w, a, s);
    }

    /** The hole is a left child and its black sibling `w` has a red right child. */
    method DeleteSettleLeft(x: RbNode, w: RbNode, ghost c: RBContext<RbNode>, ghost t: RB<RbNode>)
      requires At(c, t) && c.Hole? && c.side == Left && c.sib.Node? && w == c.sib.item
      requires IsRed(c.sib.right) && x.parent == c.item
      modifies this`root, this`shape
      modifies nodes`left, nodes`right, nodes`parent, nodes`color
      ensures shape == Plug(c.up, Settle(c, t, c.sib)) && Linked()
      ensures InOrder(shape) == old(InOrder(shape))
    {
      hide Linked;
      ghost var a, s := Across(c, t), c.sib;
      SettleRotates(c, t, c.sib);
      Look(a, s);
      SetColor(w, x.parent.color, a, s);
      s := s.(tag := c.tag);
      SetColor(x.parent, Black, c.up, Grow(a, s));
      a := a.(tag := Black);
      SetColor(w.right, Black, Below(Right, a, s), s.right);
      s := s.(right := Paint(s.right, Black));
      assert shape == Plug(a, s);
      LeftRotate(x.parent, c.up, Grow(a, s));
    }

    /** The hole is a left child and its black sibling has a red child. */
    method DeleteRepairLeft(x: RbNode, sibling: RbNode, ghost c: RBContext<RbNode>, ghost t: RB<RbNode>)
      requires At(c, t) && c.Hole? && c.side == Left && c.sib.Node? && sibling == c.sib.item
      requires IsRed(c.sib.left) || IsRed(c.sib.right)
      requires x == Root(t, nil) && x.parent == c.item
      modifies this`root, this`shape
      modifies nodes`left, nodes`right, nodes`parent, nodes`color
      ensures shape == Plug(c.up, Settle(c, t, OuterRed(Left, c.sib))) && Linked()
      ensures InOrder(shape) == old(InOrder(shape))
    {
      hide Linked;
      var w := sibling;
      Look(Across(c, t), c.sib);
      Look(Below(Right, Across(c, t), c.sib), c.sib.right);
      if w.right.color == Black {
        DeleteTurnSiblingLeft(w, c, t);
        Look(c.(sib := OuterRed(Left, c.sib)), t);
        w := x.parent.right;
      }
      DeleteSettleLeft(x, w, c.(sib := OuterRed(Left, c.sib)), t);
    }

    /** The rest of the loop body once the sibling `w` of the left child `node` is black. */
    method DeleteBlackSiblingLeft(node: RbNode, w: RbNode, ghost c: RBContext<RbNode>, ghost t: RB<RbNode>)
      returns (x: RbNode)
      requires At(c, t) && c.Hole? && c.side == Left && c.sib.Node? && w == c.sib.item
      requires node == Root(t, nil) && node.parent == c.item
      modifies this`root, this`shape
      modifies nodes`left, nodes`right, nodes`parent, nodes`color
      ensures var (c', t') := BlackSiblingStep(c, t); At(c', t') && x == Root(t', nil) && x.parent == Parent(c', nil)
      ensures InOrder(shape) == old(InOrder(shape))
    {
      hide Linked;
      x := node;
      ghost var a := Across(c, t);
      LookAcross(c, t);
      Look(a, c.sib);
      LookColor(Below(Left, a, c.sib), c.sib.left);
      LookColor(Below(Right, a, c.sib), c.sib.right);
      if w.left.color == Black && w.right.color == Black {
        SetColor(w, Red, a, c.sib);
        x := x.parent;
        Look(c.up, Make(Left, c.tag, t, c.item, Paint(c.sib, Red)));
      } else {
        DeleteRepairLeft(x, w, c, t);
        x := root;
        Look(Top, shape);
      }
    }

    /** The loop body of the deletion repair when the hole is a left child. */
    method DeletePassLeft(node: RbNode, ghost c: RBContext<RbNode>, ghost t: RB<RbNode>) returns (x: RbNode)
      requires At(c, t) && c.Hole? && c.side == Left && c.sib.Node?
        && (IsRed(c.sib) ==> c.sib.left.Node? && c.sib.right.Node?)
      requires node == Root(t, nil) && node.parent == c.item
      modifies this`root, this`shape
      modifies nodes`left, nodes`right, nodes`parent, nodes`color
      ensures var (c', t') := DeleteStep(c, t); At(c', t') && x == Root(t', nil) && x.parent == Parent(c', nil)
      ensures InOrder(shape) == old(InOrder(shape))
    {
      hide Linked;
      x := node;
      ghost var d := c;
      LookAcross(c, t);
      var w := x.parent.right;
      if w.color == Red {
        DeleteRedSiblingLeft(x, w, c, t);
        d := RedSibling(c);
        Look(d, t);
        w := x.parent.right;
      }
      x := DeleteBlackSiblingLeft(x, w, d, t);
    }

    /** The hole is a right child and its sibling `w` is red. */
    method DeleteRedSiblingRight(x: RbNode, w: RbNode, ghost c: RBContext<RbNode>, ghost t: RB<RbNode>)
      requires At(c, t) && c.Hole? && c.side == Right && IsRed(c.sib) && c.sib.right.Node?
      requires x.parent == c.item && w == c.sib.item
      modifies this`root, this`shape
      modifies nodes`left, nodes`right, nodes`parent, nodes`color
      ensures At(RedSibling(c), t)
      ensures InOrder(shape) == old(InOrder(shape))
    {
      hide Linked;
      RedSiblingRotates(c, t);
      Look(c, t);
      SetColor(w, Black, Across(c, t), c.sib);
      SetColor(x.parent, Red, c.up, Grow(c.(sib := Paint(c.sib, Black)), t));
      RightRotate(x.parent, c.up, Paint(Grow(c.(sib := Paint(c.sib, Black)), t), Red));
    }

    /** The hole is a right child and its black sibling has a black left and a red right child. */
    method DeleteTurnSiblingRight(w: RbNode, ghost c: RBContext<RbNode>, ghost t: RB<RbNode>)
      requires At(c, t) && c.Hole? && c.side == Right && c.sib.Node? && w == c.sib.item
      requires IsRed(c.sib.right) && !IsRed(c.sib.left)
      modifies this`root, this`shape
      modifies nodes`left, nodes`right, nodes`parent, nodes`color
      ensures At(c.(sib := OuterRed(Right, c.sib)), t)
      ensures InOrder(shape) == old(InOrder(shape))
    {
      hide Linked;
      ghost var a, s := Across(c, t), c.sib;
      Look(a, s);
      SetColor(w.right, Black, Below(Right, a, s), s.right);
      s := s.(right := Paint(s.right, Black));
      SetColor(w, Red, a, s);
      s := s.(tag := Red);
      LeftRotate(w, a, s);
    }

    /** The hole is a right child and its black sibling `w` has a red left child. */
    method DeleteSettleRight(x: RbNode, w: RbNode, ghost c: RBContext<RbNode>, ghost t: RB<RbNode>)
      requires At(c, t) && c.Hole? && c.side == Right && c.sib.Node? && w == c.sib.item
      requires IsRed(c.sib.left) && x.parent == c.item
      modifies this`root, this`shape
      modifies nodes`left, nodes`right, nodes`parent, nodes`color
      ensures shape == Plug(c.up, Settle(c, t, c.sib)) && Linked()
      ensures InOrder(shape) == old(InOrder(shape))
    {
      hide Linked;
      ghost var a, s := Across(c, t), c.sib;
      SettleRotates(c, t, c.sib);
      Look(a, s);
      SetColor(w, x.parent.color, a, s);
      s := s.(tag := c.tag);
      SetColor(x.parent, Black, c.up, Grow(a, s));
      a := a.(tag := Black);
      SetColor(w.left, Black, Below(Left, a, s), s.left);
      s := s.(left := Paint(s.left, Black));
      assert shape == Plug(a, s);
      RightRotate(x.parent, c.up, Grow(a, s));
    }

    /** The hole is a right child and its black sibling has a red child. */
    method DeleteRepairRight(x: RbNode, sibling: RbNode, ghost c: RBContext<RbNode>, ghost t: RB<RbNode>)
      requires At(c, t) && c.Hole? && c.side == Right && c.sib.Node? && sibling == c.sib.item
      requires IsRed(c.sib.left) || IsRed(c.sib.right)
      requires x == Root(t, nil) && x.parent == c.item
      modifies this`root, this`shape
      modifies nodes`left, nodes`right, nodes`parent, nodes`color
      ensures shape == Plug(c.up, Settle(c, t, OuterRed(Right, c.sib))) && Linked()
      ensures InOrder(shape) == old(InOrder(shape))
    {
      hide Linked;
      var w := sibling;
      Look(Across(c, t), c.sib);
      Look(Below(Left, Across(c, t), c.sib), c.sib.left);
      if w.left.color == Black {
        DeleteTurnSiblingRight(w, c, t);
        Look(c.(sib := OuterRed(Right, c.sib)), t);
        w := x.parent.left;
      }
      DeleteSettleRight(x, w, c.(sib := OuterRed(Right, c.sib)), t);
    }

    /** The rest of the loop body once the sibling `w` of the right child `node` is black. */
    method DeleteBlackSiblingRight(node: RbNode, w: RbNode, ghost c: RBContext<RbNode>, ghost t: RB<RbNode>)
      returns (x: RbNode)
      requires At(c, t) && c.Hole? && c.side == Right && c.sib.Node? && w == c.sib.item
      requires node == Root(t, nil) && node.parent == c.item
      modifies this`root, this`shape
      modifies nodes`left, nodes`right, nodes`parent, nodes`color
      ensures var (c', t') := BlackSiblingStep(c, t); At(c', t') && x == Root(t', nil) && x.parent == Parent(c', nil)
      ensures InOrder(shape) == old(InOrder(shape))
    {
      hide Linked;
      x := node;
      ghost var a := Across(c, t);
      LookAcross(c, t);
      Look(a, c.sib);
      LookColor(Below(Left, a, c.sib), c.sib.left);
      LookColor(Below(Right, a, c.sib), c.sib.right);
      if w.left.color == Black && w.right.color == Black {
        SetColor(w, Red, a, c.sib);
        x := x.parent;
        Look(c.up, Make(Right, c.tag, t, c.item, Paint(c.sib, Red)));
      } else {
        DeleteRepairRight(x, w, c, t);
        x := root;
        Look(Top, shape);
      }
    }

    /** The loop body of the deletion repair when the hole is a right child. */
    method DeletePassRight(node: RbNode, ghost c: RBContext<RbNode>, ghost t: RB<RbNode>) returns (x: RbNode)
      requires At(c, t) && c.Hole? && c.side == Right && c.sib.Node?
        && (IsRed(c.sib) ==> c.sib.left.Node? && c.sib.right.Node?)
      requires node == Root(t, nil) && node.parent == c.item
      modifies this`root, this`shape
      modifies nodes`left, nodes`right, nodes`parent, nodes`color
      ensures var (c', t') := DeleteStep(c, t); At(c', t') && x == Root(t', nil) && x.parent == Parent(c', nil)
      ensures InOrder(shape) == old(InOrder(shape))
    {
      hide Linked;
      x := node;
      ghost var d := c;
      LookAcross(c, t);
      var w := x.parent.left;
      if w.color == Red {
        DeleteRedSiblingRight(x, w, c, t);
        d := RedSibling(c);
        Look(d, t);
        w := x.parent.left;
      }
      x := DeleteBlackSiblingRight(x, w, d, t);
    }

    method DeleteFixup(node: RbNode, ghost c0: RBContext<RbNode>, ghost t0: RB<RbNode>)
      requires At(c0, t0) && DeletePending(c0, t0) && node == Root(t0, nil) && node.parent == Parent(c0, nil)
      modifies this`root, this`shape, nil`color
      modifies nodes`left, nodes`right, nodes`parent, nodes`color
      ensures Linked() && Valid(shape)
      ensures InOrder(shape) == old(InOrder(shape))
    {
      hide Linked;
      var x := node;
      ghost var c, t := c0, t0;
      Look(c, t);
      while x != root && x.color == Black
        invariant At(c, t) && DeletePending(c, t) && x == Root(t, nil) && x.parent == Parent(c, nil)
        invariant InOrder(shape) == old(InOrder(shape))
        decreases Depth(c), !IsRed(t)
      {
        Look(c, t);
        DeleteStepKeeps(c, t);
        LookAcross(c, t);
        if x == x.parent.left {
          x := DeletePassLeft(x, c, t);
        } else {
          x := DeletePassRight(x, c, t);
        }
        c, t := DeleteStep(c, t).0, DeleteStep(c, t).1;
      }
      Look(c, t);
      DeleteEnd(c, t);
      SetColor(x, Black, c, t);
    }

    /** The keys to the left of the hole are below `key` and those to its right are above. */
    ghost predicate Brackets(c: RBContext<RbNode>, key: CString)
      reads `pairs
    {
      Bracketed(pairs, |Before(c)|, |pairs| - |After(c)|, key)
    }

    /** The place of the node in the hole in the sequence. */
    lemma Position(c: RBContext<RbNode>, t: RB<RbNode>)
      requires Ready() && At(c, t) && t.Node?
      ensures var k := |Before(c)| + |InOrder(t.left)|;
        k < |pairs| && order[k] == t.item && pairs[k] == (t.item.key, t.item.value)
    {
      HoleIndex(c, t, |InOrder(t.left)|);
    }

    /** One step down the search path. */
    lemma BracketsBelow(c: RBContext<RbNode>, t: RB<RbNode>, key: CString)
      requires Ready() && At(c, t) && t.Node? && Brackets(c, key)
      ensures StrCmp(key, t.item.key) < 0 ==> Brackets(Below(Left, c, t), key)
      ensures StrCmp(key, t.item.key) > 0 ==> Brackets(Below(Right, c, t), key)
    {
      var k := |Before(c)| + |InOrder(t.left)|;
      Position(c, t);
      PlugInOrder(c, t);
      Narrowed(pairs, |Before(c)|, |pairs| - |After(c)|, k, key);
    }

    /** A bracketed empty place is the place of an absent key. */
    lemma BracketsAbsent(c: RBContext<RbNode>, key: CString, value: CString)
      requires Ready() && At(c, Leaf) && Brackets(c, key)
      ensures order == Before(c) + After(c)
      ensures forall i :: 0 <= i < |pairs| ==> pairs[i].0 != key
      ensures Rising(Inserted(pairs, |Before(c)|, (key, value)))
    {
      EmptyHole(c);
      NarrowedToNothing(pairs, |Before(c)|, key, value);
    }

    lemma StepBound(steps: nat)
      requires Ready() && steps <= Height(shape)
      ensures Pow2(steps) <= (|pairs| + 1) * (|pairs| + 1)
    {
      PathBound(shape, steps);
      InOrderLength(shape);
    }

    method Search(key: CString)
      returns (node: RbNode, ghost c: RBContext<RbNode>, ghost t: RB<RbNode>, ghost steps: nat)
      requires Ready()
      ensures At(c, t) && node == Root(t, nil)
      ensures node == nil ==> forall i :: 0 <= i < |pairs| ==> pairs[i].0 != key
      ensures node != nil ==> node.key == key
      ensures Pow2(steps) <= (|pairs| + 1) * (|pairs| + 1)
    {
      hide Linked, Rising, Sound, StrCmp, Pow2, Size;
      Look(Top, shape);
      node := root;
      c, t, steps := Top, shape, 0;
      while node != nil
        invariant shape == Plug(c, t) && node == Root(t, nil) && Brackets(c, key)
        invariant steps + Height(t) <= Height(shape)
        decreases t
      {
        Look(c, t);
        BracketsBelow(c, t, key);
        steps := steps + 1;
        if StrCmp(key, node.key) < 0 {
          node := node.left;
          c, t := Below(Left, c, t), t.left;
        } else if StrCmp(key, node.key) > 0 {
          node := node.right;
          c, t := Below(Right, c, t), t.right;
        } else {
          StrCmpEqual(key, node.key);
          break;
        }
      }
      StepBound(steps);
      Look(c, t);
      if node == nil {
        BracketsAbsent(c, key, "");
      }
    }

    method AttachLinks(z: RbNode, y: RbNode, ghost S: set<RbNode>)
      requires y in S + {nil} && z !in S + {nil} && nil !in S
      modifies this`root, z`left, z`right, z`parent, z`color, S`left, S`right
      ensures z.Fields() == Cell(Red, nil, nil, y) && root == if y == nil then z else old(root)
      ensures forall n :: n in S ==>
        n.Fields() ==
          if n == y then WithLink(if StrCmp(z.key, y.key) < 0 then Left else Right, old(n.Fields()), z)
            else old(n.Fields())
    {
      z.parent := y;
      if y == nil {
        root := z;
      } else if StrCmp(z.key, y.key) < 0 {
        y.left := z;
      } else {
        y.right := z;
      }
      z.left := nil;
      z.right := nil;
      z.color := Red;
    }

    /** Hangs the new node `z` below `y`, which is the parent of the hole of `c`. */
    method Attach(z: RbNode, y: RbNode, ghost c: RBContext<RbNode>)
      requires At(c, Leaf) && y == Parent(c, nil) && z !in nodes && z != nil
      requires c.Hole? ==> (c.side == Left <==> StrCmp(z.key, y.key) < 0)
      modifies this`root, this`shape, this`nodes, z`left, z`right, z`parent, z`color, nodes`left, nodes`right
      ensures At(c, Node(Red, Leaf, z, Leaf)) && z.parent == Parent(c, nil)
      ensures nodes == old(nodes) + {z} && InOrder(shape) == Before(c) + [z] + After(c)
    {
      hide Items, Distinct, CellOf, Plug, StrCmp;
      AttachedShape(c, Red, z, nil);
      AttachLinks(z, y, nodes);
      ghost var u := Plug(c, Node(Red, Leaf, z, Leaf));
      hide Linked;
      nodes := nodes + {z};
      Reshape(u);
    }

    /** The end of an insertion, from the place found for the new node. */
    method InsertAt(z: RbNode, y: RbNode, ghost c: RBContext<RbNode>)
      requires At(c, Leaf) && Valid(shape) && y == Parent(c, nil) && z !in nodes && z != nil
      requires c.Hole? ==> (c.side == Left <==> StrCmp(z.key, y.key) < 0)
      modifies this`root, this`shape, this`nodes, z`left, z`right, z`parent, z`color
      modifies nodes`left, nodes`right, nodes`parent, nodes`color
      ensures Linked() && Valid(shape)
      ensures nodes == old(nodes) + {z} && InOrder(shape) == Before(c) + [z] + After(c)
    {
      hide Linked;
      AttachKeeps(c, z);
      Attach(z, y, c);
      InsertFixup(z, c, Node(Red, Leaf, z, Leaf));
    }

    /** The sequences after an insertion into a bracketed empty place. */
    lemma NewPlace(c: RBContext<RbNode>, z: RbNode)
      requires Ready() && At(c, Leaf) && Brackets(c, z.key)
      ensures var k := |Before(c)|;
        && k <= |order| == |pairs| && Rising(Inserted(pairs, k, (z.key, z.value)))
        && (forall i :: 0 <= i < |pairs| ==> pairs[i].0 != z.key)
        && Inserted(order, k, z) == Before(c) + [z] + After(c)
    {
      BracketsAbsent(c, z.key, z.value);
      InsertedMiddle(Before(c), z, After(c));
    }

    method InsertBetween(z: RbNode, y: RbNode, ghost c: RBContext<RbNode>)
      requires Ready() && At(c, Leaf) && y == Parent(c, nil) && z !in nodes && z != nil
      requires c.Hole? ==> (c.side == Left <==> StrCmp(z.key, y.key) < 0)
      requires Brackets(c, z.key)
      modifies this`root, this`shape, this`nodes, this`order, this`pairs, z`left, z`right, z`parent, z`color
      modifies nodes`left, nodes`right, nodes`parent, nodes`color
      ensures Ready() && nodes == old(nodes) + {z}
      ensures |Before(c)| <= |old(pairs)| && forall i :: 0 <= i < |old(pairs)| ==> old(pairs)[i].0 != z.key
      ensures pairs == Inserted(old(pairs), |Before(c)|, (z.key, z.value))
    {
      hide Linked, Rising, Before, Brackets;
      NewPlace(c, z);
      ghost var k := |Before(c)|;
      ghost var s, p := Inserted(order, k, z), Inserted(pairs, k, (z.key, z.value));
      InsertAt(z, y, c);
      Relist(s, p);
    }

    /** Inserts `z` at its place among the keys, or does nothing if its key is present; `k` is the place. */
    method Insert(z: RbNode) returns (ghost k: nat)
      requires Ready() && z !in nodes && z != nil
      modifies this`root, this`shape, this`nodes, this`order, this`pairs, z`left, z`right, z`parent, z`color
      modifies nodes`left, nodes`right, nodes`parent, nodes`color
      ensures Ready() && k <= |old(pairs)|
      ensures if exists i :: 0 <= i < |old(pairs)| && old(pairs)[i].0 == z.key
        then nodes == old(nodes) && pairs == old(pairs)
        else nodes == old(nodes) + {z} && pairs == Inserted(old(pairs), k, (z.key, z.value))
    {
      hide Linked, Rising, Sound, StrCmp, Valid, InOrder;
      Look(Top, shape);
      var y, x := nil, root;
      ghost var c: RBContext<RbNode>, t := Top, shape;
      k := 0;
      while x != nil
        invariant shape == Plug(c, t) && x == Root(t, nil) && y == Parent(c, nil) && Brackets(c, z.key)
        invariant c.Hole? ==> (c.side == Left <==> StrCmp(z.key, y.key) < 0)
        decreases t
        modifies {}
      {
        Look(c, t);
        BracketsBelow(c, t, z.key);
        y := x;
        if StrCmp(z.key, x.key) < 0 {
          x := x.left;
          c, t := Below(Left, c, t), t.left;
        } else if StrCmp(z.key, x.key) > 0 {
          x := x.right;
          c, t := Below(Right, c, t), t.right;
        } else {
          StrCmpEqual(z.key, x.key);
          Position(c, t);
          return;
        }
      }
      Look(c, t);
      k := |Before(c)|;
      InsertBetween(z, y, c);
    }

    /** The leftmost node below `node`. */
    method Mini(node: RbNode, ghost c0: RBContext<RbNode>, ghost t0: RB<RbNode>)
      returns (x: RbNode, ghost c: RBContext<RbNode>, ghost t: RB<RbNode>)
      requires At(c0, t0) && t0.Node? && node == t0.item
      ensures At(c, t) && t.Node? && x == t.item && t.left.Leaf? && Before(c) == Before(c0)
      ensures x == (InOrder(t0) + After(c0))[0]
    {
      hide Linked;
      x, c, t := node, c0, t0;
      Look(c, t);
      while x.left != nil
        invariant At(c, t) && t.Node? && x == t.item && Before(c) == Before(c0)
        invariant x.left == Root(t.left, nil)
        decreases t
      {
        x := x.left;
        c, t := Below(Left, c, t), t.left;
        Look(c, t);
      }
      Look(Below(Left, c, t), t.left);
      FirstInHole(c, t, c0, t0);
    }

    /** The next node in the sequence, or the sentinel after the last; with a right subtree, also where it is. */
    method Successor(node: RbNode, ghost c0: RBContext<RbNode>, ghost t0: RB<RbNode>)
      returns (y: RbNode, ghost c: RBContext<RbNode>, ghost t: RB<RbNode>)
      requires At(c0, t0) && t0.Node? && node == t0.item
      ensures var rest := InOrder(t0.right) + After(c0); y == if rest == [] then nil else rest[0]
      ensures t0.right.Node? ==>
        && At(c, t) && t.Node? && y == t.item && t.left.Leaf?
        && Before(c) == Before(c0) + InOrder(t0.left) + [t0.item]
    {
      hide Linked;
      var x := node;
      c, t := c0, t0;
      Look(c, t);
      Look(Below(Right, c, t), t.right);
      y := x.parent;
      if x.right != nil {
        y, c, t := Mini(x.right, Below(Right, c, t), t.right);
        return;
      }
      while y != nil && x == y.right
        invariant At(c, t) && x == Root(t, nil) && y == Parent(c, nil) && t.Node? && After(c) == After(c0)
        decreases c
      {
        Look(c, t);
        x := y;
        y := y.parent;
        c, t := c.up, Grow(c, t);
      }
      Look(c, t);
    }

    /** Takes the node `y`, which has at most one child, out of the links. */
    method SpliceLinks(y: RbNode, ghost S: set<RbNode>) returns (x: RbNode)
      requires y in S && nil !in S && {y.parent, y.left, y.right} <= S + {nil}
      requires y.left == nil || y.right == nil
      requires y !in {y.parent, y.left, y.right}
      requires y.parent != nil ==> y.parent !in {y.left, y.right} && (y.parent.left == y) != (y.parent.right == y)
      modifies this`root, S`left, S`right, S`parent, nil`parent
      ensures x == (if old(y.left) != nil then old(y.left) else old(y.right)) && x.parent == old(y.parent)
      ensures root == if old(y.parent) == nil then x else old(root)
      ensures forall n :: n in S && n != y ==>
        var f := old(n.Fields());
        n.Fields() == Relinked(y, x, old(y.parent), if n == x then f.(parent := old(y.parent)) else f, n, nil)
    {
      x := nil;
      if y.left != nil {
        x := y.left;
      } else if y.right != nil {
        x := y.right;
      }
      x.parent := y.parent;
      if y.parent == nil {
        root := x;
      } else if y == y.parent.left {
        y.parent.left := x;
      } else {
        y.parent.right := x;
      }
    }

    method Splice(y: RbNode, ghost c: RBContext<RbNode>, ghost t: RB<RbNode>) returns (x: RbNode)
      requires At(c, t) && OneChild(t) && y == t.item
      modifies this`root, this`shape, this`nodes, nodes`left, nodes`right, nodes`parent, nil`parent
      ensures At(c, Rest(t)) && x == Root(Rest(t), nil) && x.parent == Parent(c, nil)
      ensures nodes == old(nodes) - {y}
    {
      hide Items, Distinct, CellOf, Plug, Relinked;
      SplicedShape(c, t, nil);
      x := SpliceLinks(y, nodes);
      ghost var u := Plug(c, Rest(t));
      hide Linked;
      nodes := nodes - {y};
      Reshape(u);
    }

    /** Exchanges what `y` and `z` carry, which the links do not depend on. */
    method SwapPairs(y: RbNode, z: RbNode, ghost c: RBContext<RbNode>, ghost t: RB<RbNode>)
      requires At(c, t)
      modifies y`key, y`value, z`key, z`value
      ensures At(c, t)
      ensures z.key == old(y.key) && z.value == old(y.value) && y.key == old(z.key) && y.value == old(z.value)
    {
      var tmp := z.key;
      z.key := y.key;
      y.key := tmp;
      tmp := z.value;
      z.value := y.value;
      y.value := tmp;
    }

    /** Takes `y` out of the links; then `z` takes over the pair of `y`. */
    method SpliceAndSwap(y: RbNode, z: RbNode, ghost c: RBContext<RbNode>, ghost t: RB<RbNode>) returns (x: RbNode)
      requires At(c, t) && OneChild(t) && y == t.item
      modifies this`root, this`shape, this`nodes, nodes`left, nodes`right, nodes`parent
      modifies nil`parent, y`key, y`value, z`key, z`value
      ensures At(c, Rest(t)) && x == Root(Rest(t), nil) && x.parent == Parent(c, nil) && nodes == old(nodes) - {y}
      ensures z.key == old(y.key) && z.value == old(y.value) && y.key == old(z.key) && y.value == old(z.value)
    {
      hide Linked;
      x := Splice(y, c, t);
      if y != z {
        SwapPairs(y, z, c, Rest(t));
      }
    }

    /** Repairs the tree if the node that left it was black. */
    method RepairAfter(y: RbNode, x: RbNode, ghost c: RBContext<RbNode>, ghost t: RB<RbNode>)
      requires OneChild(t) && At(c, Rest(t)) && Valid(Plug(c, t)) && y.color == t.tag && y !in nodes
      requires x == Root(Rest(t), nil) && x.parent == Parent(c, nil)
      modifies this`root, this`shape, nodes`left, nodes`right, nodes`parent, nodes`color, nil`color
      ensures Linked() && Valid(shape) && InOrder(shape) == old(InOrder(shape))
    {
      hide Linked;
      SpliceKeeps(c, t);
      if y.color == Black {
        DeleteFixup(x, c, Rest(t));
      }
    }

    /** The end of a deletion, once the node `y` to take out has been chosen: `z` itself or its successor. */
    method DeleteAt(y: RbNode, z: RbNode, ghost c: RBContext<RbNode>, ghost t: RB<RbNode>, ghost s: seq<RbNode>)
      requires At(c, t) && Valid(shape) && OneChild(t) && y == t.item && y.color == t.tag
      requires s == (Before(c) + InOrder(t.left)) + (InOrder(t.right) + After(c))
      modifies this`root, this`shape, this`nodes, nil`parent, nil`color
      modifies nodes`left, nodes`right, nodes`parent, nodes`color, y`key, y`value, z`key, z`value
      ensures Linked() && Valid(shape) && nodes == old(nodes) - {y} && InOrder(shape) == s
      ensures z.key == old(y.key) && z.value == old(y.value) && y.key == old(z.key) && y.value == old(z.value)
    {
      hide Linked;
      SplicedOrder(c, t);
      var x := SpliceAndSwap(y, z, c, t);
      RepairAfter(y, x, c, t);
    }

    lemma Elsewhere(k: nat)
      requires Ready() && k < |order|
      ensures forall i :: 0 <= i < |order| && i != k ==> order[i] != order[k]
    {
      InOrderInjective(shape);
    }

    /** What the nodes that stay must carry when `y` at place `ky` leaves and the pair at place `k` goes. */
    lemma RemovedPairs(y: RbNode, z: RbNode, k: nat, ky: nat)
      requires Ready() && k < |order| && order[k] == z && ky < |order| && order[ky] == y
      requires ky == if y == z then k else k + 1
      ensures pairs[k] == (z.key, z.value)
      ensures var s, p := Removed(order, ky), Removed(pairs, k);
        && |s| == |p| && Rising(p)
        && forall i :: 0 <= i < |s| ==>
          s[i] != y && p[i] == if s[i] == z then (y.key, y.value) else (s[i].key, s[i].value)
    {
      hide Linked, Sound, InOrder;
      Elsewhere(k);
      Elsewhere(ky);
    }

    lemma RemovedNode(c: RBContext<RbNode>, t: RB<RbNode>)
      requires Ready() && At(c, t) && t.Node?
      ensures var k := |Before(c)| + |InOrder(t.left)|;
        && k < |order| && order[k] == t.item && t.item in nodes && t.item.color == t.tag
        && Removed(order, k) == (Before(c) + InOrder(t.left)) + (InOrder(t.right) + After(c))
    {
      Look(c, t);
      NodeOrder(c, t);
      InsertedMiddle(Before(c) + InOrder(t.left), t.item, InOrder(t.right) + After(c));
    }

    ghost method Relist(s: seq<RbNode>, p: seq<Pair>)
      requires Linked() && Valid(shape) && s == InOrder(shape) && Rising(p) && |s| == |p|
      requires forall i :: 0 <= i < |s| ==> (s[i].key, s[i].value) == p[i]
      modifies this`order, this`pairs
      ensures Ready() && order == s && pairs == p
    {
      order, pairs := s, p;
    }

    /** Deletes the pair at place `k`, that of `z`, by taking out `y`: `z` itself or its successor. */
    method DeletePair(y: RbNode, z: RbNode, ghost c: RBContext<RbNode>, ghost t: RB<RbNode>, ghost k: nat)
      requires Ready() && At(c, t) && OneChild(t) && y == t.item
      requires k < |order| && order[k] == z
      requires |Before(c)| + |InOrder(t.left)| == if y == z then k else k + 1
      modifies this`root, this`shape, this`nodes, this`order, this`pairs, nil`parent, nil`color
      modifies nodes`left, nodes`right, nodes`parent, nodes`color, y`key, y`value, z`key, z`value
      ensures Ready() && nodes == old(nodes) - {y}
      ensures pairs == Removed(old(pairs), k) && (y.key, y.value) == old(pairs)[k]
    {
      hide Linked, Sound, Rising, Before, InOrder;
      ghost var ky := if y == z then k else k + 1;
      RemovedNode(c, t);
      RemovedPairs(y, z, k, ky);
      ghost var s, p := Removed(order, ky), Removed(pairs, k);
      DeleteAt(y, z, c, t, s);
      Relist(s, p);
    }

    /** One node stands at one place. */
    lemma OneSpot(c: RBContext<RbNode>, t: RB<RbNode>, d: RBContext<RbNode>, u: RB<RbNode>)
      requires At(c, t) && At(d, u) && t.Node? && u.Node? && t.item == u.item
      ensures |Before(c)| + |InOrder(t.left)| == |Before(d)| + |InOrder(u.left)|
    {
      HoleIndex(c, t, |InOrder(t.left)|);
      HoleIndex(d, u, |InOrder(u.left)|);
      InOrderInjective(shape);
    }

    /** The node to take out: `z` itself if it has at most one child, else its successor, which has none on the left. */
    method Choose(z: RbNode, ghost c: RBContext<RbNode>, ghost t: RB<RbNode>)
      returns (y: RbNode, ghost cy: RBContext<RbNode>, ghost ty: RB<RbNode>)
      requires At(c, t) && t.Node? && z == t.item
      ensures At(cy, ty) && OneChild(ty) && y == ty.item
      ensures |Before(cy)| + |InOrder(ty.left)| == |Before(c)| + |InOrder(t.left)| + (if y == z then 0 else 1)
    {
      hide Linked;
      y, cy, ty := z, c, t;
      Look(c, t);
      Look(Below(Left, c, t), t.left);
      Look(Below(Right, c, t), t.right);
      if z.left == nil || z.right == nil {
        return;
      }
      y, cy, ty := Successor(z, c, t);
      if y == z {
        OneSpot(c, t, cy, ty);
      }
    }

    /** Deletes the pair of `z`, and returns the node that left the tree, which carries that pair. */
    method Delete(z: RbNode, ghost c: RBContext<RbNode>, ghost t: RB<RbNode>) returns (y: RbNode)
      requires Ready() && At(c, t) && t.Node? && z == t.item
      modifies this`root, this`shape, this`nodes, this`order, this`pairs, nil`parent, nil`color
      modifies nodes`left, nodes`right, nodes`parent, nodes`color, nodes`key, nodes`value
      ensures Ready() && y in old(nodes) && nodes == old(nodes) - {y}
      ensures var k := |Before(c)| + |InOrder(t.left)|;
        && k < |old(pairs)| && old(pairs)[k] == (old(z.key), old(z.value))
        && pairs == Removed(old(pairs), k) && (y.key, y.value) == old(pairs)[k]
    {
      hide Linked, Sound, Rising, Before, InOrder;
      ghost var cy, ty;
      Look(c, t);
      Position(c, t);
      y, cy, ty := Choose(z, c, t);
      Look(cy, ty);
      DeletePair(y, z, cy, ty, |Before(c)| + |InOrder(t.left)|);
    }

    // -------------------------------------------------------------- the key-value interface

    ghost predicate KvValid()
      reads `count, `root, `shape, `nodes, nodes`color, nodes`left, nodes`right, nodes`parent, nil`color
      reads `order, `pairs, order`key, order`value
    {
      Ready() && count == |pairs|
    }

    /** The finite map that the engine holds. */
    ghost function Contents(): Contents
      reads `count, `root, `shape, `nodes, nodes`color, nodes`left, nodes`right, nodes`parent, nil`color
      reads `order, `pairs, order`key, order`value
      requires KvValid()
    {
      RisingUnique(pairs);
      ToMap(pairs)
    }

    lemma PairsUnique()
      requires Ready()
      ensures Unique(pairs)
    {
      RisingUnique(pairs);
    }

    method Exist(key: CString) returns (r: int)
      requires KvValid()
      ensures r == if key in Contents() then 0 else -1
    {
      var node, c, t, steps := Search(key);
      FoundInContents(node, c, t, key);
      r := if node != nil then 0 else -1;
    }

    method Get(key: CString) returns (r: Option<CString>)
      requires KvValid()
      ensures r == if key in Contents() then Some(Contents()[key]) else None
    {
      var node, c, t, steps := Search(key);
      FoundInContents(node, c, t, key);
      if node == nil {
        return None;
      }
      r := Some(node.value);
    }

    /** What a search tells about the map. */
    lemma FoundInContents(node: RbNode, c: RBContext<RbNode>, t: RB<RbNode>, key: CString)
      requires KvValid() && At(c, t) && node == Root(t, nil)
      requires node == nil ==> forall i :: 0 <= i < |pairs| ==> pairs[i].0 != key
      requires node != nil ==> node.key == key
      ensures node == nil <==> key !in Contents()
      ensures node != nil ==>
        var k := |Before(c)| + |InOrder(t.left)|;
        && t.Node? && node in nodes && k < |pairs| && order[k] == node && pairs[k] == (key, node.value)
        && Contents()[key] == node.value
    {
      hide Linked;
      Look(c, t);
      PairsUnique();
      ToMapHas(pairs);
      if node != nil {
        Position(c, t);
      }
    }

    method SetValue(node: RbNode, newValue: CString, ghost k: nat)
      requires Ready() && k < |order| && order[k] == node
      modifies node`value, this`pairs
      ensures Ready() && pairs == old(pairs)[k := (node.key, newValue)]
    {
      Elsewhere(k);
      node.value := newValue;
      pairs := pairs[k := (node.key, newValue)];
    }

    method Mod(key: CString, newValue: CString) returns (r: int)
      requires KvValid()
      modifies this`pairs, nodes`value
      ensures KvValid()
      ensures if key in old(Contents())
        then r == 0 && Contents() == old(Contents())[key := newValue]
        else r == -1 && Contents() == old(Contents())
    {
      hide Linked, Sound, Rising, ToMap;
      r := Exist(key);
      if r == -1 {
        return -1;
      }
      var node, c, t, steps := Search(key);
      FoundInContents(node, c, t, key);
      ghost var k := |Before(c)| + |InOrder(t.left)|;
      PairsUnique();
      ToMapUpdated(pairs, k, newValue);
      SetValue(node, newValue, k);
      r := 0;
    }

    method Set(key: CString, value: CString) returns (r: int)
      requires KvValid()
      modifies this, nil`parent, nil`color, nodes
      ensures KvValid() && r == 0 && Contents() == old(Contents())[key := value]
      ensures forall n :: n in nodes && n !in old(nodes) ==> fresh(n)
    {
      hide Linked, Sound, Rising, ToMap;
      r := Exist(key);
      if r != -1 {
        r := Mod(key, value);
      } else {
        var node := new RbNode.New(key, value, nil);
        PairsUnique();
        ToMapHas(pairs);
        ghost var k := Insert(node);
        ToMapInserted(old(pairs), k, (key, value));
        count := count + 1;
        r := 0;
      }
    }

    method Del(key: CString) returns (r: int)
      requires KvValid()
      modifies this, nil`parent, nil`color, nodes
      ensures KvValid() && nodes <= old(nodes)
      ensures if key in old(Contents())
        then r == 0 && Contents() == old(Contents()) - {key}
        else r == -1 && Contents() == old(Contents())
    {
      hide Linked, Sound, Rising, ToMap;
      var node, c, t, steps := Search(key);
      FoundInContents(node, c, t, key);
      if node == nil {
        return -1;
      }
      PairsUnique();
      ToMapRemoved(pairs, |Before(c)| + |InOrder(t.left)|);
      var cur := Delete(node, c, t);
      count := count - 1;
      r := 0;
    }

    method Count() returns (r: int)
      requires KvValid()
      ensures r == |Contents()|
    {
      PairsUnique();
      ToMapSize(pairs);
      r := count;
    }
  }
}
