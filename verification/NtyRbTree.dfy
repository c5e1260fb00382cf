/**
 The red-black trees of the coroutine scheduler: null leaves, and a deletion that moves nodes instead of
 copying keys.  Each macro that takes a comparison and a field name is modelled on elements with an
 integer key, which is what both users of the macros compare.
 */
module NtyRbTree {
  import opened Trees
  import opened Links
  import opened RedBlack
  import opened Sequences

  class Elm {
    var left: Elm?
    var right: Elm?
    var parent: Elm?
    var color: Color
    var key: int

    function Fields(): Cell<Color, Elm?>
      reads `color, `left, `right, `parent
    {
      Cell(color, left, right, parent)
    }

    constructor (key: int)
      ensures this.key == key
    {
      this.key := key;
      left, right, parent, color := null, null, null, Black;
    }
  }

  type Shape = RB<Elm?>
  type Place = RBContext<Elm?>

  ghost predicate Rising(keys: seq<int>) {
    forall i, j :: 0 <= i < j < |keys| ==> keys[i] < keys[j]
  }

  /** The keys below `key` are the first `k`. */
  ghost predicate FirstBelow(keys: seq<int>, key: int, k: nat) {
    k <= |keys| && forall i :: 0 <= i < |keys| ==> (keys[i] < key <==> i < k)
  }

  lemma Narrowed(keys: seq<int>, k: nat, key: int)
    requires Rising(keys) && k < |keys|
    ensures key < keys[k] ==> forall i :: k <= i < |keys| ==> key < keys[i]
    ensures key > keys[k] ==> forall i :: 0 <= i <= k ==> keys[i] < key
  {
  }

  class Head {
    var root: Elm?
    ghost var shape: Shape
    ghost var nodes: set<Elm?>
    ghost var order: seq<Elm?>
    ghost var keys: seq<int>

    /** The heap holds the tree `shape`. */
    ghost predicate Linked()
      reads `root, `shape, `nodes, nodes`color, nodes`left, nodes`right, nodes`parent
    {
      && nodes == Items(shape) && Distinct(shape) && null !in nodes
      && root == Root(shape, null)
      && forall n :: n in nodes ==> n != null && n.Fields() == CellOf(shape, null, null, n)
    }

    ghost predicate At(c: Place, t: Shape)
      reads `root, `shape, `nodes, nodes`color, nodes`left, nodes`right, nodes`parent
    {
      Linked() && shape == Plug(c, t)
    }

    /** A red-black search tree of the elements `order`, whose keys are `keys`. */
    ghost predicate Ready()
      reads `root, `shape, `nodes, nodes`color, nodes`left, nodes`right, nodes`parent
      reads `order, `keys, order`key
    {
      && Linked() && Valid(shape)
      && order == InOrder(shape) && |order| == |keys|
      && (forall i :: 0 <= i < |order| ==> order[i] != null && order[i].key == keys[i])
      && Rising(keys)
    }

    constructor Init()
      ensures Ready() && order == []
    {
      root := null;
      shape, nodes, order, keys := Leaf, {}, [], [];
    }

    /** What the program sees at the hole. */
    lemma Look(c: Place, t: Shape)
      requires At(c, t)
      ensures Separate(c, t) && Items(t) + Around(c) == nodes && null !in nodes
      ensures t.Node? ==>
        && t.item in nodes && t.item != null
        && t.item.color == t.tag && t.item.parent == Parent(c, null)
        && t.item.left == Root(t.left, null) && t.item.right == Root(t.right, null)
      ensures c.Hole? ==>
        && c.item in nodes && c.item != null
        && c.item.color == c.tag && c.item.parent == Parent(c.up, null)
        && c.item.left == (if c.side == Left then Root(t, null) else Root(c.sib, null))
        && c.item.right == (if c.side == Left then Root(c.sib, null) else Root(t, null))
      ensures c.Hole? ==> root in Around(c) && (c.sib.Node? ==> c.sib.item != Root(t, null))
      ensures c.Top? ==> root == Root(t, null)
    {
      PlugSeparate(c, t);
      LookAtHole(c, t, null);
      if c.Hole? {
        RootPlug(c, t, Leaf, null);
        PlugSeparate(c, Leaf);
      }
    }

    /** What the program sees at the root of the tree in the hole, or that it is empty. */
    lemma LookRoot(c: Place, t: Shape)
      requires At(c, t)
      ensures var x := Root(t, null);
        (x == null <==> t.Leaf?) && (x != null ==> x in nodes && (x.color == Red <==> IsRed(t)))
    {
      Look(c, t);
    }

    /** What the program sees at the sibling of the hole. */
    lemma LookAcross(c: Place, t: Shape)
      requires At(c, t) && c.Hole?
      ensures At(Across(c, t), c.sib)
      ensures c.item != null && (if c.side == Left then c.item.right else c.item.left) == Root(c.sib, null)
      ensures var x := Root(c.sib, null);
        (x == null <==> c.sib.Leaf?) && (x != null ==> (x.color == Red <==> IsRed(c.sib)))
    {
      Look(c, t);
      Look(Across(c, t), c.sib);
    }

    method SetColor(x: Elm, color: Color, ghost c: Place, ghost t: Shape)
      requires At(c, t) && t.Node? && x == t.item
      modifies x`color, this`shape
      ensures At(c, Paint(t, color))
      ensures InOrder(shape) == old(InOrder(shape))
    {
      PaintedShape(c, t, color, null);
      shape := Plug(c, t.(tag := color));
      x.color := color;
    }

    /** Names the new shape once the links of all nodes are those of `u`. */
    ghost method Reshape(u: Shape)
      requires nodes == Items(u) && Distinct(u) && null !in nodes && root == Root(u, null)
      requires forall n :: n in nodes ==> n != null && n.Fields() == CellOf(u, null, null, n)
      modifies this`shape
      ensures Linked() && shape == u
    {
      shape := u;
    }

    method RotateLeftLinks(elm: Elm, ghost S: set<Elm?>) returns (tmp: Elm)
      requires elm in S && elm.right != null && elm.right in S && {elm.right.left, elm.parent} <= S + {null}
        && null !in S
      requires elm.right !in {elm, elm.parent, elm.right.left} && elm !in {elm.parent, elm.right.left}
      requires elm.right.left == elm.parent ==> elm.parent == null
      modifies this`root, S`left, S`right, S`parent
      ensures tmp == old(elm.right) && root == if old(elm.parent) == null then tmp else old(root)
      ensures forall n :: n in S ==>
        n.Fields() == Lifted(Right, elm, tmp, old(elm.right.left), old(elm.parent), old(n.Fields()), n, null)
    {
      tmp := elm.right;
      elm.right := tmp.left;
      if elm.right != null {
        tmp.left.parent := elm;
      }
      tmp.parent := elm.parent;
      if tmp.parent != null {
        if elm == elm.parent.left {
          elm.parent.left := tmp;
        } else {
          elm.parent.right := tmp;
        }
      } else {
        root := tmp;
      }
      tmp.left := elm;
      elm.parent := tmp;
    }

    method RotateLeft(elm: Elm, ghost c: Place, ghost t: Shape) returns (tmp: Elm)
      requires At(c, t) && t.Node? && t.right.Node? && elm == t.item
      modifies this`root, this`shape, nodes`left, nodes`right, nodes`parent
      ensures At(c, Rotate(Right, t)) && tmp == t.right.item
      ensures InOrder(shape) == old(InOrder(shape))
    {
      hide Items, Distinct, CellOf, Plug;
      RotationSite(Right, c, t, null);
      RotatedShape(Right, c, t, null);
      tmp := RotateLeftLinks(elm, nodes);
      ghost var u := Plug(c, Rotate(Right, t));
      hide Linked;
      Reshape(u);
    }

    method RotateRightLinks(elm: Elm, ghost S: set<Elm?>) returns (tmp: Elm)
      requires elm in S && elm.left != null && elm.left in S && {elm.left.right, elm.parent} <= S + {null} && null !in S
      requires elm.left !in {elm, elm.parent, elm.left.right} && elm !in {elm.parent, elm.left.right}
      requires elm.left.right == elm.parent ==> elm.parent == null
      modifies this`root, S`left, S`right, S`parent
      ensures tmp == old(elm.left) && root == if old(elm.parent) == null then tmp else old(root)
      ensures forall n :: n in S ==>
        n.Fields() == Lifted(Left, elm, tmp, old(elm.left.right), old(elm.parent), old(n.Fields()), n, null)
    {
      tmp := elm.left;
      elm.left := tmp.right;
      if elm.left != null {
        tmp.right.parent := elm;
      }
      tmp.parent := elm.parent;
      if tmp.parent != null {
        if elm == elm.parent.left {
          elm.parent.left := tmp;
        } else {
          elm.parent.right := tmp;
        }
      } else {
        root := tmp;
      }
      tmp.right := elm;
      elm.parent := tmp;
    }

    method RotateRight(elm: Elm, ghost c: Place, ghost t: Shape) returns (tmp: Elm)
      requires At(c, t) && t.Node? && t.left.Node? && elm == t.item
      modifies this`root, this`shape, nodes`left, nodes`right, nodes`parent
      ensures At(c, Rotate(Left, t)) && tmp == t.left.item
      ensures InOrder(shape) == old(InOrder(shape))
    {
      hide Items, Distinct, CellOf, Plug;
      RotationSite(Left, c, t, null);
      RotatedShape(Left, c, t, null);
      tmp := RotateRightLinks(elm, nodes);
      ghost var u := Plug(c, Rotate(Left, t));
      hide Linked;
      Reshape(u);
    }

    /** The parent is the left child of the grandparent and the uncle is not red. */
    method InsertTurnLeft(node: Elm, father: Elm, gparent: Elm, ghost c: Place, ghost t: Shape) returns (elm: Elm)
      requires At(c, t) && IsRed(t) && node == t.item
      requires c.Hole? && c.tag == Red && c.up.Hole? && c.up.side == Left && !IsRed(c.up.sib)
      requires father == c.item && gparent == c.up.item
      modifies this`root, this`shape, nodes`left, nodes`right, nodes`parent, nodes`color
      ensures var (c', t') := InsertStep(c, t); At(c', t') && t'.Node? && elm == t'.item
      ensures InOrder(shape) == old(InOrder(shape))
    {
      hide Linked;
      elm := node;
      var parent := father;
      ghost var g, pt := c.up, Grow(c, t);
      InsertStepRotates(c, t);
      Look(c, t);
      Look(g, pt);
      if parent.right == elm {
        var tmp := RotateLeft(parent, g, pt);
        pt := Rotate(Right, pt);
        Look(g, pt);
        tmp := parent;
        parent := elm;
        elm := tmp;
      }
      SetColor(parent, Black, g, pt);
      SetColor(gparent, Red, g.up, Grow(g, Paint(pt, Black)));
      var tmp := RotateRight(gparent, g.up, Paint(Grow(g, Paint(pt, Black)), Red));
    }

    /** The loop body of the insertion repair when the parent is the left child of the grandparent. */
    method InsertPassLeft(node: Elm, parent: Elm, gparent: Elm, ghost c: Place, ghost t: Shape) returns (elm: Elm)
      requires At(c, t) && IsRed(t) && node == t.item
      requires c.Hole? && c.tag == Red && c.up.Hole? && c.up.side == Left
      requires parent == c.item && gparent == c.up.item
      modifies this`root, this`shape, nodes`left, nodes`right, nodes`parent, nodes`color
      ensures var (c', t') := InsertStep(c, t); At(c', t') && t'.Node? && elm == t'.item
      ensures InOrder(shape) == old(InOrder(shape))
    {
      hide Linked;
      elm := node;
      ghost var g, u, pt := c.up, c.up.sib, Grow(c, t);
      Look(c, t);
      Look(g, pt);
      LookAcross(g, pt);
      var tmp := gparent.right;
      if tmp != null && tmp.color == Red {
        SetColor(tmp, Black, Across(g, pt), u);
        SetColor(parent, Black, g.(sib := Paint(u, Black)), pt);
        SetColor(gparent, Red, g.up, Make(Left, g.tag, Paint(pt, Black), g.item, Paint(u, Black)));
        elm := gparent;
      } else {
        elm := InsertTurnLeft(elm, parent, gparent, c, t);
      }
    }

    /** The parent is the right child of the grandparent and the uncle is not red. */
    method InsertTurnRight(node: Elm, father: Elm, gparent: Elm, ghost c: Place, ghost t: Shape) returns (elm: Elm)
      requires At(c, t) && IsRed(t) && node == t.item
      requires c.Hole? && c.tag == Red && c.up.Hole? && c.up.side == Right && !IsRed(c.up.sib)
      requires father == c.item && gparent == c.up.item
      modifies this`root, this`shape, nodes`left, nodes`right, nodes`parent, nodes`color
      ensures var (c', t') := InsertStep(c, t); At(c', t') && t'.Node? && elm == t'.item
      ensures InOrder(shape) == old(InOrder(shape))
    {
      hide Linked;
      elm := node;
      var parent := father;
      ghost var g, pt := c.up, Grow(c, t);
      InsertStepRotates(c, t);
      Look(c, t);
      Look(g, pt);
      if parent.left == elm {
        var tmp := RotateRight(parent, g, pt);
        pt := Rotate(Left, pt);
        Look(g, pt);
        tmp := parent;
        parent := elm;
        elm := tmp;
      }
      SetColor(parent, Black, g, pt);
      SetColor(gparent, Red, g.up, Grow(g, Paint(pt, Black)));
      var tmp := RotateLeft(gparent, g.up, Paint(Grow(g, Paint(pt, Black)), Red));
    }

    /** The loop body of the insertion repair when the parent is the right child of the grandparent. */
    method InsertPassRight(node: Elm, parent: Elm, gparent: Elm, ghost c: Place, ghost t: Shape) returns (elm: Elm)
      requires At(c, t) && IsRed(t) && node == t.item
      requires c.Hole? && c.tag == Red && c.up.Hole? && c.up.side == Right
      requires parent == c.item && gparent == c.up.item
      modifies this`root, this`shape, nodes`left, nodes`right, nodes`parent, nodes`color
      ensures var (c', t') := InsertStep(c, t); At(c', t') && t'.Node? && elm == t'.item
      ensures InOrder(shape) == old(InOrder(shape))
    {
      hide Linked;
      elm := node;
      ghost var g, u, pt := c.up, c.up.sib, Grow(c, t);
      Look(c, t);
      Look(g, pt);
      LookAcross(g, pt);
      var tmp := gparent.left;
      if tmp != null && tmp.color == Red {
        SetColor(tmp, Black, Across(g, pt), u);
        SetColor(parent, Black, g.(sib := Paint(u, Black)), pt);
        SetColor(gparent, Red, g.up, Make(Right, g.tag, Paint(pt, Black), g.item, Paint(u, Black)));
        elm := gparent;
      } else {
        elm := InsertTurnRight(elm, parent, gparent, c, t);
      }
    }

    method InsertColor(node: Elm, ghost c0: Place, ghost t0: Shape)
      requires At(c0, t0) && InsertPending(c0, t0) && node == t0.item
      modifies this`root, this`shape, nodes`left, nodes`right, nodes`parent, nodes`color
      ensures Linked() && Valid(shape)
      ensures InOrder(shape) == old(InOrder(shape))
    {
      hide Linked;
      var elm := node;
      ghost var c, t := c0, t0;
      Look(c, t);
      while elm.parent != null && elm.parent.color == Red
        invariant At(c, t) && InsertPending(c, t) && elm == t.item
        invariant InOrder(shape) == old(InOrder(shape))
        invariant elm.parent == Parent(c, null) && (elm.parent == null <==> c.Top?)
        invariant elm.parent != null ==> elm.parent.color == c.tag
        decreases Depth(c)
      {
        var parent := elm.parent;
        InsertStepKeeps(c, t);
        Look(c, t);
        Look(c.up, Grow(c, t));
        var gparent := parent.parent;
        if parent == gparent.left {
          elm := InsertPassLeft(elm, parent, gparent, c, t);
        } else {
          elm := InsertPassRight(elm, parent, gparent, c, t);
        }
        c, t := InsertStep(c, t).0, InsertStep(c, t).1;
        Look(c, t);
      }
      InsertEnd(c, t);
      Look(Top, shape);
      SetColor(root, Black, Top, shape);
    }

    /** The deficient side is the left of `parent` and the sibling `w` is red. */
    method RemoveRedSiblingLeft(parent: Elm, w: Elm, ghost c: Place, ghost t: Shape)
      requires At(c, t) && c.Hole? && c.side == Left && IsRed(c.sib) && c.sib.left.Node?
      requires parent == c.item && w == c.sib.item
      modifies this`root, this`shape, nodes`left, nodes`right, nodes`parent, nodes`color
      ensures At(RedSibling(c), t)
      ensures InOrder(shape) == old(InOrder(shape))
    {
      hide Linked;
      RedSiblingRotates(c, t);
      Look(c, t);
      SetColor(w, Black, Across(c, t), c.sib);
      SetColor(parent, Red, c.up, Grow(c.(sib := Paint(c.sib, Black)), t));
      var tmp := RotateLeft(parent, c.up, Paint(Grow(c.(sib := Paint(c.sib, Black)), t), Red));
    }

    /** The black sibling `w` has a red left and no red right child. */
    method RemoveTurnSiblingLeft(w: Elm, ghost c: Place, ghost t: Shape)
      requires At(c, t) && c.Hole? && c.side == Left && c.sib.Node? && w == c.sib.item
      requires IsRed(c.sib.left) && !IsRed(c.sib.right)
      modifies this`root, this`shape, nodes`left, nodes`right, nodes`parent, nodes`color
      ensures At(c.(sib := OuterRed(Left, c.sib)), t)
      ensures InOrder(shape) == old(InOrder(shape))
    {
      hide Linked;
      ghost var a, s := Across(c, t), c.sib;
      Look(a, s);
      Look(Below(Left, a, s), s.left);
      var oleft := w.left;
      if oleft != null {
        SetColor(oleft, Black, Below(Left, a, s), s.left);
      }
      s := s.(left := Paint(s.left, Black));
      SetColor(w, Red, a, s);
      s := s.(tag := Red);
      oleft := RotateRight(w, a, s);
    }

    /** The black sibling `w` has a red right child. */
    method RemoveSettleLeft(parent: Elm, w: Elm, ghost c: Place, ghost t: Shape)
      requires At(c, t) && c.Hole? && c.side == Left && c.sib.Node? && w == c.sib.item
      requires IsRed(c.sib.right) && parent == c.item
      modifies this`root, this`shape, nodes`left, nodes`right, nodes`parent, nodes`color
      ensures shape == Plug(c.up, Settle(c, t, c.sib)) && Linked()
      ensures InOrder(shape) == old(InOrder(shape))
    {
      hide Linked;
      ghost var a, s := Across(c, t), c.sib;
      SettleRotates(c, t, c.sib);
      Look(a, s);
      Look(Below(Right, a, s), s.right);
      SetColor(w, parent.color, a, s);
      s := s.(tag := c.tag);
      SetColor(parent, Black, c.up, Grow(a, s));
      a := a.(tag := Black);
      if w.right != null {
        SetColor(w.right, Black, Below(Right, a, s), s.right);
      }
      s := s.(right := Paint(s.right, Black));
      assert shape == Plug(a, s);
      var tmp := RotateLeft(parent, c.up, Grow(a, s));
    }

    /** The black sibling has a red child. */
    method RemoveRepairLeft(parent: Elm, sibling: Elm, ghost c: Place, ghost t: Shape)
      requires At(c, t) && c.Hole? && c.side == Left && c.sib.Node? && sibling == c.sib.item
      requires (IsRed(c.sib.left) || IsRed(c.sib.right)) && parent == c.item
      modifies this`root, this`shape, nodes`left, nodes`right, nodes`parent, nodes`color
      ensures shape == Plug(c.up, Settle(c, t, OuterRed(Left, c.sib))) && Linked()
      ensures InOrder(shape) == old(InOrder(shape))
    {
      hide Linked;
      var tmp := sibling;
      Look(Across(c, t), c.sib);
      LookRoot(Below(Right, Across(c, t), c.sib), c.sib.right);
      if tmp.right == null || tmp.right.color == Black {
        RemoveTurnSiblingLeft(tmp, c, t);
        LookAcross(c.(sib := OuterRed(Left, c.sib)), t);
        tmp := parent.right;
      }
      RemoveSettleLeft(parent, tmp, c.(sib := OuterRed(Left, c.sib)), t);
    }

    /** The rest of the loop body once the sibling `w` is black; `stop` is the break. */
    method RemoveBlackSiblingLeft(father: Elm, w: Elm, ghost c: Place, ghost t: Shape)
      returns (elm: Elm?, parent: Elm?, stop: bool)
      requires At(c, t) && c.Hole? && c.side == Left && c.sib.Node? && w == c.sib.item && father == c.item
      modifies this`root, this`shape, nodes`left, nodes`right, nodes`parent, nodes`color
      ensures var (c', t') := BlackSiblingStep(c, t);
        At(c', t') && elm == Root(t', null) && (stop ==> c'.Top?) && (!stop ==> parent == Parent(c', null))
      ensures InOrder(shape) == old(InOrder(shape))
    {
      hide Linked;
      ghost var a := Across(c, t);
      Look(a, c.sib);
      LookRoot(Below(Left, a, c.sib), c.sib.left);
      LookRoot(Below(Right, a, c.sib), c.sib.right);
      if (w.left == null || w.left.color == Black) && (w.right == null || w.right.color == Black) {
        SetColor(w, Red, a, c.sib);
        elm := father;
        parent := father.parent;
        stop := false;
        Look(c.up, Make(Left, c.tag, t, c.item, Paint(c.sib, Red)));
      } else {
        RemoveRepairLeft(father, w, c, t);
        elm := root;
        parent := father;
        stop := true;
        Look(Top, shape);
      }
    }

    /** The loop body of the removal repair when the deficient side is the left. */
    method RemovePassLeft(father: Elm, ghost c: Place, ghost t: Shape) returns (elm: Elm?, parent: Elm?, stop: bool)
      requires At(c, t) && c.Hole? && c.side == Left && c.sib.Node?
        && (IsRed(c.sib) ==> c.sib.left.Node? && c.sib.right.Node?)
      requires father == c.item
      modifies this`root, this`shape, nodes`left, nodes`right, nodes`parent, nodes`color
      ensures var (c', t') := DeleteStep(c, t);
        At(c', t') && elm == Root(t', null) && (stop ==> c'.Top?) && (!stop ==> parent == Parent(c', null))
      ensures InOrder(shape) == old(InOrder(shape))
    {
      hide Linked;
      ghost var d := c;
      LookAcross(c, t);
      var tmp := father.right;
      if tmp.color == Red {
        RemoveRedSiblingLeft(father, tmp, c, t);
        d := RedSibling(c);
        LookAcross(d, t);
        tmp := father.right;
      }
      elm, parent, stop := RemoveBlackSiblingLeft(father, tmp, d, t);
    }

    /** The deficient side is the right of `parent` and the sibling `w` is red. */
    method RemoveRedSiblingRight(parent: Elm, w: Elm, ghost c: Place, ghost t: Shape)
      requires At(c, t) && c.Hole? && c.side == Right && IsRed(c.sib) && c.sib.right.Node?
      requires parent == c.item && w == c.sib.item
      modifies this`root, this`shape, nodes`left, nodes`right, nodes`parent, nodes`color
      ensures At(RedSibling(c), t)
      ensures InOrder(shape) == old(InOrder(shape))
    {
      hide Linked;
      RedSiblingRotates(c, t);
      Look(c, t);
      SetColor(w, Black, Across(c, t), c.sib);
      SetColor(parent, Red, c.up, Grow(c.(sib := Paint(c.sib, Black)), t));
      var tmp := RotateRight(parent, c.up, Paint(Grow(c.(sib := Paint(c.sib, Black)), t), Red));
    }

    /** The black sibling `w` has a red right and no red left child. */
    method RemoveTurnSiblingRight(w: Elm, ghost c: Place, ghost t: Shape)
      requires At(c, t) && c.Hole? && c.side == Right && c.sib.Node? && w == c.sib.item
      requires IsRed(c.sib.right) && !IsRed(c.sib.left)
      modifies this`root, this`shape, nodes`left, nodes`right, nodes`parent, nodes`color
      ensures At(c.(sib := OuterRed(Right, c.sib)), t)
      ensures InOrder(shape) == old(InOrder(shape))
    {
      hide Linked;
      ghost var a, s := Across(c, t), c.sib;
      Look(a, s);
      Look(Below(Right, a, s), s.right);
      var oright := w.right;
      if oright != null {
        SetColor(oright, Black, Below(Right, a, s), s.right);
      }
      s := s.(right := Paint(s.right, Black));
      SetColor(w, Red, a, s);
      s := s.(tag := Red);
      oright := RotateLeft(w, a, s);
    }

    /** The black sibling `w` has a red left child. */
    method RemoveSettleRight(parent: Elm, w: Elm, ghost c: Place, ghost t: Shape)
      requires At(c, t) && c.Hole? && c.side == Right && c.sib.Node? && w == c.sib.item
      requires IsRed(c.sib.left) && parent == c.item
      modifies this`root, this`shape, nodes`left, nodes`right, nodes`parent, nodes`color
      ensures shape == Plug(c.up, Settle(c, t, c.sib)) && Linked()
      ensures InOrder(shape) == old(InOrder(shape))
    {
      hide Linked;
      ghost var a, s := Across(c, t), c.sib;
      SettleRotates(c, t, c.sib);
      Look(a, s);
      Look(Below(Left, a, s), s.left);
      SetColor(w, parent.color, a, s);
      s := s.(tag := c.tag);
      SetColor(parent, Black, c.up, Grow(a, s));
      a := a.(tag := Black);
      if w.left != null {
        SetColor(w.left, Black, Below(Left, a, s), s.left);
      }
      s := s.(left := Paint(s.left, Black));
      assert shape == Plug(a, s);
      var tmp := RotateRight(parent, c.up, Grow(a, s));
    }

    /** The black sibling has a red child. */
    method RemoveRepairRight(parent: Elm, sibling: Elm, ghost c: Place, ghost t: Shape)
      requires At(c, t) && c.Hole? && c.side == Right && c.sib.Node? && sibling == c.sib.item
      requires (IsRed(c.sib.left) || IsRed(c.sib.right)) && parent == c.item
      modifies this`root, this`shape, nodes`left, nodes`right, nodes`parent, nodes`color
      ensures shape == Plug(c.up, Settle(c, t, OuterRed(Right, c.sib))) && Linked()
      ensures InOrder(shape) == old(InOrder(shape))
    {
      hide Linked;
      var tmp := sibling;
      Look(Across(c, t), c.sib);
      LookRoot(Below(Left, Across(c, t), c.sib), c.sib.left);
      if tmp.left == null || tmp.left.color == Black {
        RemoveTurnSiblingRight(tmp, c, t);
        LookAcross(c.(sib := OuterRed(Right, c.sib)), t);
        tmp := parent.left;
      }
      RemoveSettleRight(parent, tmp, c.(sib := OuterRed(Right, c.sib)), t);
    }

    /** The rest of the loop body once the sibling `w` is black; `stop` is the break. */
    method RemoveBlackSiblingRight(father: Elm, w: Elm, ghost c: Place, ghost t: Shape)
      returns (elm: Elm?, parent: Elm?, stop: bool)
      requires At(c, t) && c.Hole? && c.side == Right && c.sib.Node? && w == c.sib.item && father == c.item
      modifies this`root, this`shape, nodes`left, nodes`right, nodes`parent, nodes`color
      ensures var (c', t') := BlackSiblingStep(c, t);
        At(c', t') && elm == Root(t', null) && (stop ==> c'.Top?) && (!stop ==> parent == Parent(c', null))
      ensures InOrder(shape) == old(InOrder(shape))
    {
      hide Linked;
      ghost var a := Across(c, t);
      Look(a, c.sib);
      LookRoot(Below(Left, a, c.sib), c.sib.left);
      LookRoot(Below(Right, a, c.sib), c.sib.right);
      if (w.left == null || w.left.color == Black) && (w.right == null || w.right.color == Black) {
        SetColor(w, Red, a, c.sib);
        elm := father;
        parent := father.parent;
        stop := false;
        Look(c.up, Make(Right, c.tag, t, c.item, Paint(c.sib, Red)));
      } else {
        RemoveRepairRight(father, w, c, t);
        elm := root;
        parent := father;
        stop := true;
        Look(Top, shape);
      }
    }

    /** The loop body of the removal repair when the deficient side is the right. */
    method RemovePassRight(father: Elm, ghost c: Place, ghost t: Shape) returns (elm: Elm?, parent: Elm?, stop: bool)
      requires At(c, t) && c.Hole? && c.side == Right && c.sib.Node?
        && (IsRed(c.sib) ==> c.sib.left.Node? && c.sib.right.Node?)
      requires father == c.item
      modifies this`root, this`shape, nodes`left, nodes`right, nodes`parent, nodes`color
      ensures var (c', t') := DeleteStep(c, t);
        At(c', t') && elm == Root(t', null) && (stop ==> c'.Top?) && (!stop ==> parent == Parent(c', null))
      ensures InOrder(shape) == old(InOrder(shape))
    {
      hide Linked;
      ghost var d := c;
      LookAcross(c, t);
      var tmp := father.left;
      if tmp.color == Red {
        RemoveRedSiblingRight(father, tmp, c, t);
        d := RedSibling(c);
        LookAcross(d, t);
        tmp := father.left;
      }
      elm, parent, stop := RemoveBlackSiblingRight(father, tmp, d, t);
    }

    /** The repair after a removal, told the parent of the deficient place because an empty place has no links. */
    method RemoveColor(father: Elm?, child: Elm?, ghost c0: Place, ghost t0: Shape)
      requires At(c0, t0) && DeletePending(c0, t0) && child == Root(t0, null) && father == Parent(c0, null)
      modifies this`root, this`shape, nodes`left, nodes`right, nodes`parent, nodes`color
      ensures Linked() && Valid(shape)
      ensures InOrder(shape) == old(InOrder(shape))
    {
      hide Linked;
      var parent, elm, stop := father, child, false;
      ghost var c, t := c0, t0;
      LookRoot(c, t);
      while !stop && (elm == null || elm.color == Black) && elm != root
        invariant At(c, t) && DeletePending(c, t) && elm == Root(t, null)
        invariant InOrder(shape) == old(InOrder(shape))
        invariant elm != null ==> elm in nodes
        invariant if stop then c.Top? else parent == Parent(c, null)
        decreases Depth(c), !IsRed(t)
      {
        Look(c, t);
        LookRoot(c, t);
        DeleteStepKeeps(c, t);
        LookAcross(c, t);
        if parent.left == elm {
          elm, parent, stop := RemovePassLeft(parent, c, t);
        } else {
          elm, parent, stop := RemovePassRight(parent, c, t);
        }
        c, t := DeleteStep(c, t).0, DeleteStep(c, t).1;
        LookRoot(c, t);
      }
      Look(c, t);
      LookRoot(c, t);
      DeleteEnd(c, t);
      if elm != null {
        SetColor(elm, Black, c, t);
      }
    }

    // ---------------------------------------------------------------- removal

    /** Takes `elm`, whose only child is `child`, out from under `parent`. */
    method SpliceLinks(elm: Elm, child: Elm?, parent: Elm?, ghost S: set<Elm?>)
      requires elm in S && null !in S && {parent, child} <= S + {null} && parent == elm.parent
      requires elm !in {parent, child}
      requires parent != null ==> parent != child && (parent.left == elm) != (parent.right == elm)
      modifies this`root, S`left, S`right, S`parent
      ensures root == if parent == null then child else old(root)
      ensures forall n :: n in S && n != elm ==>
        var f := old(n.Fields());
        n.Fields() == Relinked(elm, child, parent, if n == child then f.(parent := parent) else f, n, null)
      ensures elm.Fields() == old(elm.Fields())
    {
      if child != null {
        child.parent := parent;
      }
      if parent != null {
        if parent.left == elm {
          parent.left := child;
        } else {
          parent.right := child;
        }
      } else {
        root := child;
      }
    }

    method Splice(elm: Elm, child: Elm?, parent: Elm?, ghost c: Place, ghost t: Shape)
      requires At(c, t) && OneChild(t) && elm == t.item && child == Root(Rest(t), null) && parent == Parent(c, null)
      modifies this`root, this`shape, this`nodes, nodes`left, nodes`right, nodes`parent
      ensures At(c, Rest(t)) && nodes == old(nodes) - {elm} && elm.Fields() == old(elm.Fields())
    {
      hide Items, Distinct, CellOf, Plug;
      SplicedShape(c, t, null);
      SpliceLinks(elm, child, parent, nodes);
      ghost var u := Plug(c, Rest(t));
      hide Linked;
      nodes := nodes - {elm};
      Reshape(u);
    }

    /** Puts `elm` where `old` is: its fields, the link of its parent and the parent links of its children. */
    method TransplantLinks(elm: Elm, leaver: Elm, ghost S: set<Elm?>)
      requires leaver in S && elm !in S && null !in S && {leaver.parent, leaver.left, leaver.right} <= S + {null}
      requires leaver !in {leaver.parent, leaver.left, leaver.right} && leaver.left != null
        && leaver.left != leaver.right
      requires leaver.parent != null ==>
        && leaver.parent !in {leaver.left, leaver.right}
        && (leaver.parent.left == leaver) != (leaver.parent.right == leaver)
      modifies this`root, elm`left, elm`right, elm`parent, elm`color, S`left, S`right, S`parent
      ensures elm.Fields() == old(leaver.Fields())
      ensures root == if old(leaver.parent) == null then elm else old(root)
      ensures forall n :: n in S && n != leaver ==>
        var f := old(n.Fields());
        var g := if n in {old(leaver.left), old(leaver.right)} then f.(parent := elm) else f;
        n.Fields() == Relinked(leaver, elm, old(leaver.parent), g, n, null)
    {
      elm.left, elm.right, elm.parent, elm.color := leaver.left, leaver.right, leaver.parent, leaver.color;
      if leaver.parent != null {
        if leaver.parent.left == leaver {
          leaver.parent.left := elm;
        } else {
          leaver.parent.right := elm;
        }
      } else {
        root := elm;
      }
      leaver.left.parent := elm;
      if leaver.right != null {
        leaver.right.parent := elm;
      }
    }

    method Transplant(elm: Elm, leaver: Elm, ghost c: Place, ghost t: Shape)
      requires At(c, t) && t.Node? && t.left.Node? && leaver == t.item && elm !in nodes
      modifies this`root, this`shape, this`nodes, nodes`left, nodes`right, nodes`parent
      modifies elm`left, elm`right, elm`parent, elm`color
      ensures At(c, t.(item := elm)) && nodes == old(nodes) - {leaver} + {elm}
    {
      hide Items, Distinct, CellOf, Plug;
      ExchangedShape(c, t, elm, null);
      ExchangeSite(c, t, null);
      Look(c, t);
      TransplantLinks(elm, leaver, nodes);
      ghost var u := Plug(c, t.(item := elm));
      hide Linked;
      nodes := nodes - {leaver} + {elm};
      Reshape(u);
    }

    /** The leftmost element below `node`. */
    method Leftmost(node: Elm, ghost c: Place, ghost t: Shape) returns (elm: Elm, ghost a: Place, ghost u: Shape)
      requires At(c, t) && t.Node? && node == t.item
      ensures u.Node? && u.left.Leaf? && elm == u.item && t == Plug(a, u) && Before(a) == []
      ensures At(Append(a, c), u)
    {
      hide Linked;
      elm, a, u := node, Top, t;
      Look(c, t);
      LookRoot(Below(Left, c, t), t.left);
      var left := elm.left;
      while left != null
        invariant u.Node? && elm == u.item && t == Plug(a, u) && Before(a) == [] && At(Append(a, c), u)
        invariant left == Root(u.left, null) && (left == null <==> u.left.Leaf?)
        decreases u
      {
        elm := left;
        a, u := Below(Left, a, u), u.left;
        Look(Append(a, c), u);
        LookRoot(Below(Left, Append(a, c), u), u.left);
        left := elm.left;
      }
    }

    /** An element with at most one child leaves. */
    method RemoveEasy(elm: Elm, child: Elm?, ghost c: Place, ghost t: Shape)
      requires At(c, t) && Valid(shape) && OneChild(t) && elm == t.item && child == Root(Rest(t), null)
      modifies this`root, this`shape, this`nodes, nodes`left, nodes`right, nodes`parent, nodes`color
      ensures Linked() && Valid(shape) && nodes == old(nodes) - {elm}
      ensures InOrder(shape) == (Before(c) + InOrder(t.left)) + (InOrder(t.right) + After(c))
    {
      hide Linked;
      Look(c, t);
      SplicedOrder(c, t);
      SpliceKeeps(c, t);
      var parent, color := elm.parent, elm.color;
      Splice(elm, child, parent, c, t);
      if color == Black {
        RemoveColor(parent, child, c, Rest(t));
      }
    }

    /** The successor `elm` of `leaver` is taken out of its place in the right subtree. */
    method TakeOut(leaver: Elm, ghost c: Place, ghost t: Shape)
      returns (elm: Elm, child: Elm?, parent: Elm?, color: Color, ghost a: Place, ghost u: Shape)
      requires At(c, t) && t.Node? && t.left.Node? && t.right.Node? && leaver == t.item
      modifies this`root, this`shape, this`nodes, nodes`left, nodes`right, nodes`parent
      ensures u.Node? && u.left.Leaf? && elm == u.item && t.right == Plug(a, u) && Before(a) == []
      ensures elm in old(nodes) && elm != leaver && nodes == old(nodes) - {elm}
      ensures At(c, t.(right := Plug(a, Rest(u))))
      ensures child == Root(Rest(u), null) && color == u.tag
      ensures parent == elm.parent == (if a.Top? then leaver else a.item) && (parent == leaver <==> a.Top?)
    {
      hide Linked, Append, InOrder;
      ghost var rc := Below(Right, c, t);
      Look(c, t);
      Look(rc, t.right);
      elm, a, u := Leftmost(leaver.right, rc, t.right);
      Successor(c, t, a, u);
      Look(Append(a, rc), u);
      LookRoot(Below(Right, Append(a, rc), u), u.right);
      child, parent, color := elm.right, elm.parent, elm.color;
      Splice(elm, child, parent, Append(a, rc), u);
    }

    /** Where the successor stands, and that it and the element above it are not the element that leaves. */
    lemma Successor(c: Place, t: Shape, a: Place, u: Shape)
      requires t.Node? && t.right == Plug(a, u) && u.Node? && Separate(c, t)
      ensures var rc := Below(Right, c, t);
        && Plug(Append(a, rc), u) == Plug(c, t)
        && Plug(Append(a, rc), Rest(u)) == Plug(c, t.(right := Plug(a, Rest(u))))
        && Parent(Append(a, rc), null) == (if a.Top? then t.item else a.item)
        && u.item != t.item && (a.Hole? ==> a.item != t.item)
    {
      AppendPlug(a, Below(Right, c, t), u);
      AppendPlug(a, Below(Right, c, t), Rest(u));
      PlugSeparate(a, u);
    }

    /** The place of the deficit after `u.item` was moved from inside the right subtree of `t` to its root. */
    lemma MovedPlace(c: Place, t: Shape, a: Place, u: Shape)
      requires t.Node? && t.right == Plug(a, u) && OneChild(u)
      requires Valid(Plug(c, t))
      ensures var rc := Below(Right, c, t);
        var d := Append(a, rc.(item := u.item));
        && Plug(d, Rest(u)) == Plug(c, Moved(t, a, u))
        && Parent(d, null) == (if a.Top? then u.item else a.item)
        && if u.tag == Black then DeletePending(d, Rest(u)) else Valid(Plug(d, Rest(u)))
    {
      var rc := Below(Right, c, t);
      AppendPlug(a, rc, u);
      AppendPlug(a, rc.(item := u.item), Rest(u));
      SpliceKeeps(Append(a, rc), u);
      RenamedKeeps(a, rc, u.item, Rest(u));
    }

    /** The relinking part of a removal with two children: the successor of `leaver` takes its place. */
    method MoveUp(leaver: Elm, ghost c: Place, ghost t: Shape)
      returns (child: Elm?, parent: Elm?, color: Color, ghost d: Place, ghost x: Shape)
      requires At(c, t) && Valid(shape) && t.Node? && t.left.Node? && t.right.Node? && leaver == t.item
      modifies this`root, this`shape, this`nodes, nodes`left, nodes`right, nodes`parent, nodes`color
      ensures At(d, x) && child == Root(x, null) && parent == Parent(d, null) && nodes == old(nodes) - {leaver}
      ensures if color == Black then DeletePending(d, x) else Valid(shape)
      ensures InOrder(shape) == (Before(c) + InOrder(t.left)) + (InOrder(t.right) + After(c))
    {
      hide Linked, Sound, Append, InOrder, Before, After, Plug;
      var elm: Elm;
      ghost var a, u;
      elm, child, parent, color, a, u := TakeOut(leaver, c, t);
      MovedPlace(c, t, a, u);
      MovedOrder(c, t, a, u);
      if elm.parent == leaver {
        parent := elm;
      }
      Transplant(elm, leaver, c, t.(right := Plug(a, Rest(u))));
      ghost var rc := Below(Right, c, t);
      d, x := Append(a, rc.(item := elm)), Rest(u);
    }

    /** An element with two children leaves, and its successor takes its place. */
    method RemoveInner(leaver: Elm, ghost c: Place, ghost t: Shape)
      requires At(c, t) && Valid(shape) && t.Node? && t.left.Node? && t.right.Node? && leaver == t.item
      modifies this`root, this`shape, this`nodes, nodes`left, nodes`right, nodes`parent, nodes`color
      ensures Linked() && Valid(shape) && nodes == old(nodes) - {leaver}
      ensures InOrder(shape) == (Before(c) + InOrder(t.left)) + (InOrder(t.right) + After(c))
    {
      hide Linked, Sound;
      var child, parent, color, d, x := MoveUp(leaver, c, t);
      if color == Black {
        RemoveColor(parent, child, d, x);
      }
    }

    /** The place of an element in the sequence. */
    lemma Position(c: Place, t: Shape)
      requires Ready() && At(c, t) && t.Node?
      ensures var a, b := Before(c) + InOrder(t.left), InOrder(t.right) + After(c);
        && |a| < |order| && order[|a|] == t.item && keys[|a|] == t.item.key && Removed(order, |a|) == a + b
    {
      var a, b := Before(c) + InOrder(t.left), InOrder(t.right) + After(c);
      NodeOrder(c, t);
      InsertedMiddle(a, t.item, b);
    }

    lemma KeyPresent(c: Place, t: Shape)
      requires Ready() && At(c, t) && t.Node?
      ensures t.item != null && t.item.key in keys
    {
      Position(c, t);
      assert t.item == order[|Before(c) + InOrder(t.left)|];
    }

    /** Names the new sequence after a change. */
    ghost method Relist(s: seq<Elm?>, ks: seq<int>)
      requires Linked() && Valid(shape) && s == InOrder(shape) && Rising(ks) && |s| == |ks|
      requires forall i :: 0 <= i < |s| ==> s[i] != null && s[i].key == ks[i]
      modifies this`order, this`keys
      ensures Ready() && order == s && keys == ks
    {
      order, keys := s, ks;
    }

    /** Where an element of the tree stands. */
    lemma WhereIs(elm: Elm) returns (c: Place, t: Shape, k: nat)
      requires Ready() && elm in nodes
      ensures At(c, t) && t.Node? && t.item == elm && k < |order| && order[k] == elm
      ensures Removed(order, k) == (Before(c) + InOrder(t.left)) + (InOrder(t.right) + After(c))
    {
      c, t := Locate(Top, shape, elm);
      Position(c, t);
      k := |Before(c) + InOrder(t.left)|;
    }

    /** RB_REMOVE: exactly `elm` leaves; every other element stays, with its key, in the same order. */
    method Remove(elm: Elm) returns (leaver: Elm, ghost k: nat)
      requires Ready() && elm in nodes
      modifies this`root, this`shape, this`nodes, this`order, this`keys
      modifies nodes`left, nodes`right, nodes`parent, nodes`color
      ensures Ready() && leaver == elm && nodes == old(nodes) - {elm}
      ensures k < |old(order)| && old(order)[k] == elm
      ensures order == Removed(old(order), k) && keys == Removed(old(keys), k)
    {
      hide Linked;
      leaver := elm;
      ghost var c, t;
      c, t, k := WhereIs(elm);
      ghost var s, ks := Removed(order, k), Removed(keys, k);
      Look(c, t);
      LookRoot(Below(Left, c, t), t.left);
      LookRoot(Below(Right, c, t), t.right);
      if elm.left == null {
        RemoveEasy(elm, elm.right, c, t);
      } else if elm.right == null {
        RemoveEasy(elm, elm.left, c, t);
      } else {
        RemoveInner(elm, c, t);
      }
      Relist(s, ks);
    }

    // ---------------------------------------------------------------- search and insertion

    /** The keys to the left of the hole are below `key` and those to its right are above. */
    ghost predicate Brackets(c: Place, key: int)
      reads `keys
    {
      && |Before(c)| + |After(c)| <= |keys|
      && (forall i :: 0 <= i < |Before(c)| ==> keys[i] < key)
      && (forall i :: |keys| - |After(c)| <= i < |keys| ==> key < keys[i])
    }

    /** One step down the search path. */
    lemma BracketsBelow(c: Place, t: Shape, key: int)
      requires Ready() && At(c, t) && t.Node? && Brackets(c, key)
      ensures t.item in nodes && t.item != null
      ensures At(Below(Left, c, t), t.left) && t.item.left == Root(t.left, null)
        && (t.item.left == null <==> t.left.Leaf?)
      ensures At(Below(Right, c, t), t.right) && t.item.right == Root(t.right, null)
        && (t.item.right == null <==> t.right.Leaf?)
      ensures key < t.item.key ==> Brackets(Below(Left, c, t), key)
      ensures key > t.item.key ==> Brackets(Below(Right, c, t), key)
    {
      Look(c, t);
      LookRoot(Below(Left, c, t), t.left);
      LookRoot(Below(Right, c, t), t.right);
      Position(c, t);
      NodeOrder(c, t);
      ghost var k := |Before(c) + InOrder(t.left)|;
      Narrowed(keys, k, key);
      assert |Before(Below(Right, c, t))| == k + 1 && |After(Below(Left, c, t))| == |keys| - k;
    }

    /** A bracketed empty place is the place of an absent key. */
    lemma BracketsAbsent(c: Place, key: int)
      requires Ready() && At(c, Leaf) && Brackets(c, key)
      ensures order == Before(c) + After(c) && FirstBelow(keys, key, |Before(c)|)
      ensures if After(c) == []
        then |Before(c)| == |order|
        else |Before(c)| < |order| && order[|Before(c)|] == After(c)[0]
      ensures key !in keys && Rising(Inserted(keys, |Before(c)|, key))
    {
      EmptyHole(c);
    }

    /** The place of a key that was found. */
    lemma Found(c: Place, t: Shape)
      requires Ready() && At(c, t) && t.Node? && t.item != null
      ensures var k := |Before(c)| + |InOrder(t.left)|;
        k < |order| && order[k] == t.item && keys[k] == t.item.key && FirstBelow(keys, t.item.key, k)
    {
      Position(c, t);
    }

    /** RB_FIND: the element with this key, if there is one. */
    method Find(key: int) returns (elm: Elm?)
      requires Ready()
      ensures elm == null ==> key !in keys
      ensures elm != null ==> elm in nodes && elm in order && elm.key == key
    {
      hide Linked;
      LookRoot(Top, shape);
      var tmp := root;
      ghost var c: Place, t: Shape := Top, shape;
      Look(c, t);
      while tmp != null
        invariant At(c, t) && tmp == Root(t, null) && (tmp == null <==> t.Leaf?) && Brackets(c, key)
        decreases t
      {
        BracketsBelow(c, t, key);
        if key < tmp.key {
          tmp := tmp.left;
          c, t := Below(Left, c, t), t.left;
        } else if key > tmp.key {
          tmp := tmp.right;
          c, t := Below(Right, c, t), t.right;
        } else {
          Position(c, t);
          return tmp;
        }
      }
      BracketsAbsent(c, key);
      elm := null;
    }

    /** The element behind the keys below `key` has the least key that is not below it. */
    lemma Nearest(key: int, k: nat)
      requires Ready() && FirstBelow(keys, key, k)
      ensures k == |order| ==> forall d :: d in keys ==> d < key
      ensures k < |order| ==>
        && order[k] in nodes && order[k] != null && key <= order[k].key
        && forall d :: d in keys && key <= d ==> order[k].key <= d
    {
      if k < |order| {
        Listed(order[k]);
      }
    }

    /** RB_NFIND: the element with the least key not below `key`. */
    method NFind(key: int) returns (elm: Elm?)
      requires Ready()
      ensures elm == null ==> forall d :: d in keys ==> d < key
      ensures elm != null ==> elm in nodes && key <= elm.key && forall d :: d in keys && key <= d ==> elm.key <= d
    {
      hide Linked, Rising, Sound, FirstBelow;
      LookRoot(Top, shape);
      var tmp, res: Elm? := root, null;
      ghost var c: Place, t: Shape := Top, shape;
      Look(c, t);
      while tmp != null
        invariant At(c, t) && tmp == Root(t, null) && (tmp == null <==> t.Leaf?) && Brackets(c, key)
        invariant res == if After(c) == [] then null else After(c)[0]
        decreases t
      {
        BracketsBelow(c, t, key);
        if key < tmp.key {
          res := tmp;
          tmp := tmp.left;
          c, t := Below(Left, c, t), t.left;
        } else if key > tmp.key {
          tmp := tmp.right;
          c, t := Below(Right, c, t), t.right;
        } else {
          Found(c, t);
          Nearest(key, |Before(c)| + |InOrder(t.left)|);
          return tmp;
        }
      }
      BracketsAbsent(c, key);
      Nearest(key, |Before(c)|);
      elm := res;
    }

    method AttachLinks(elm: Elm, parent: Elm?, comp: int, ghost S: set<Elm?>)
      requires parent in S + {null} && elm !in S && null !in S
      modifies this`root, elm`left, elm`right, elm`parent, elm`color, S`left, S`right
      ensures elm.Fields() == Cell(Red, null, null, parent) && root == if parent == null then elm else old(root)
      ensures forall n :: n in S ==>
        n.Fields() ==
          if n == parent then WithLink(if comp < 0 then Left else Right, old(n.Fields()), elm) else old(n.Fields())
    {
      elm.parent := parent;
      elm.left, elm.right := null, null;
      elm.color := Red;
      if parent != null {
        if comp < 0 {
          parent.left := elm;
        } else {
          parent.right := elm;
        }
      } else {
        root := elm;
      }
    }

    method Attach(elm: Elm, parent: Elm?, comp: int, ghost c: Place)
      requires At(c, Leaf) && parent == Parent(c, null) && elm !in nodes
      requires c.Hole? ==> (c.side == Left <==> comp < 0)
      modifies this`root, this`shape, this`nodes, elm`left, elm`right, elm`parent, elm`color, nodes`left, nodes`right
      ensures At(c, Node(Red, Leaf, elm, Leaf))
      ensures nodes == old(nodes) + {elm} && InOrder(shape) == Before(c) + [elm] + After(c)
    {
      hide Items, Distinct, CellOf, Plug;
      AttachedShape(c, Red, elm, null);
      AttachLinks(elm, parent, comp, nodes);
      ghost var u := Plug(c, Node(Red, Leaf, elm, Leaf));
      hide Linked;
      nodes := nodes + {elm};
      Reshape(u);
    }

    /** The sequences after an insertion into a bracketed empty place. */
    lemma NewPlace(c: Place, elm: Elm)
      requires Ready() && At(c, Leaf) && Brackets(c, elm.key)
      ensures var k := |Before(c)|;
        && k <= |order| == |keys| && elm.key !in keys && Rising(Inserted(keys, k, elm.key))
        && Inserted(order, k, elm) == Before(c) + [elm] + After(c)
    {
      BracketsAbsent(c, elm.key);
      InsertedMiddle(Before(c), elm, After(c));
    }

    /** The end of an insertion, from the place found for the new element. */
    method InsertAt(elm: Elm, parent: Elm?, comp: int, ghost c: Place)
      requires Ready() && At(c, Leaf) && parent == Parent(c, null) && elm !in nodes
      requires c.Hole? ==> (c.side == Left <==> comp < 0)
      requires Brackets(c, elm.key)
      modifies this`root, this`shape, this`nodes, this`order, this`keys, elm`left, elm`right, elm`parent, elm`color
      modifies nodes`left, nodes`right, nodes`parent, nodes`color
      ensures Ready() && nodes == old(nodes) + {elm}
      ensures |Before(c)| <= |old(order)| == |old(keys)| && elm.key !in old(keys)
      ensures order == Inserted(old(order), |Before(c)|, elm) && keys == Inserted(old(keys), |Before(c)|, elm.key)
    {
      hide Linked, Rising, Before, Brackets;
      NewPlace(c, elm);
      ghost var k := |Before(c)|;
      ghost var s, ks := Inserted(order, k, elm), Inserted(keys, k, elm.key);
      AttachKeeps(c, elm as Elm?);
      Attach(elm, parent, comp, c);
      InsertColor(elm, c, Node(Red, Leaf, elm, Leaf));
      Relist(s, ks);
    }

    /**
     RB_INSERT: `elm` joins at its place `k` among the keys, unless an element with its key is there and is
     returned.
     */
    method Insert(elm: Elm) returns (found: Elm?, ghost k: nat)
      requires Ready() && elm !in nodes
      modifies this`root, this`shape, this`nodes, this`order, this`keys, elm`left, elm`right, elm`parent, elm`color
      modifies nodes`left, nodes`right, nodes`parent, nodes`color
      ensures Ready() && k <= |old(order)| == |old(keys)|
      ensures found != null <==> elm.key in old(keys)
      ensures found != null ==> found in nodes && found.key == elm.key
      ensures found != null ==> nodes == old(nodes) && order == old(order) && keys == old(keys)
      ensures found == null ==>
        nodes == old(nodes) + {elm} && order == Inserted(old(order), k, elm) && keys == Inserted(old(keys), k, elm.key)
    {
      hide Linked, Sound, Valid;
      LookRoot(Top, shape);
      var parent: Elm?, comp := null, 0;
      var tmp := root;
      ghost var c: Place, t: Shape := Top, shape;
      Look(c, t);
      k := 0;
      while tmp != null
        invariant At(c, t) && tmp == Root(t, null) && (tmp == null <==> t.Leaf?) && Brackets(c, elm.key)
        invariant parent == Parent(c, null) && (c.Hole? ==> (c.side == Left <==> comp < 0))
        decreases t
        modifies {}
      {
        parent := tmp;
        BracketsBelow(c, t, elm.key);
        comp := elm.key - parent.key;
        if comp < 0 {
          tmp := tmp.left;
          c, t := Below(Left, c, t), t.left;
        } else if comp > 0 {
          tmp := tmp.right;
          c, t := Below(Right, c, t), t.right;
        } else {
          KeyPresent(c, t);
          return tmp, 0;
        }
      }
      k := |Before(c)|;
      InsertAt(elm, parent, comp, c);
      found := null;
    }

    // ---------------------------------------------------------------- walking

    /** What the neighbours of the element in the hole are. */
    lemma Neighbours(c: Place, t: Shape)
      requires Ready() && At(c, t) && t.Node?
      ensures var rest := InOrder(t.right) + After(c);
        NextIn(order, t.item, null) == if rest == [] then null else rest[0]
      ensures var rest := Before(c) + InOrder(t.left);
        PrevIn(order, t.item, null) == if rest == [] then null else rest[|rest| - 1]
    {
      InOrderInjective(shape);
      Position(c, t);
      NodeOrder(c, t);
      NeighboursAt(order, |Before(c) + InOrder(t.left)|, null);
    }

    /** The sequence lists every element of the tree once. */
    lemma Listed(x: Elm?)
      requires Ready()
      ensures Injective(order) && null !in order && (x in order <==> x in nodes)
    {
      InOrderInjective(shape);
      InOrderMember(shape, x);
    }

    /** Where an element and its key stand, and that no other element has this key. */
    lemma KeyOf(elm: Elm) returns (k: nat)
      requires Ready() && elm in nodes
      ensures k < |order| && order[k] == elm && keys[k] == elm.key
      ensures forall e: Elm? :: e in nodes && e.key == elm.key ==> e == elm
    {
      Listed(elm);
      k :| 0 <= k < |order| && order[k] == elm;
      forall e: Elm? | e in nodes && e.key == elm.key ensures e == elm {
        Listed(e);
        var j :| 0 <= j < |order| && order[j] == e;
      }
    }

    /** The keys of the tree are the keys of its elements. */
    lemma Holder(d: int)
      requires Ready()
      ensures d in keys <==> exists e: Elm? :: e in nodes && e != null && e.key == d
    {
      if d in keys {
        var k :| 0 <= k < |keys| && keys[k] == d;
        Listed(order[k]);
      }
      forall e: Elm? | e in nodes && e != null && e.key == d ensures d in keys {
        var k := KeyOf(e);
      }
    }

    /** RB_NEXT and RB_PREV undo each other. */
    lemma StepsInverse(x: Elm)
      requires Ready() && x in nodes
      ensures var y := NextIn(order, x, null); y != null ==> y in nodes && PrevIn(order, y, null) == x
      ensures var y := PrevIn(order, x, null); y != null ==> y in nodes && NextIn(order, y, null) == x
    {
      Listed(x);
      NeighboursInverse(order, x, null);
      Listed(NextIn(order, x, null));
      Listed(PrevIn(order, x, null));
    }

    /** RB_NEXT */
    method Next(node: Elm) returns (elm: Elm?)
      requires Ready() && node in nodes
      ensures elm == NextIn(order, node, null)
    {
      hide Linked;
      ghost var c, t, k := WhereIs(node);
      Neighbours(c, t);
      Look(c, t);
      LookRoot(Below(Right, c, t), t.right);
      if node.right != null {
        ghost var a, u;
        elm, a, u := Leftmost(node.right, Below(Right, c, t), t.right);
        LeftmostOrder(a, u);
        return;
      }
      if node.parent != null && node == node.parent.left {
        return node.parent;
      }
      elm := node;
      ghost var rest := After(c);
      while elm.parent != null && elm == elm.parent.right
        invariant At(c, t) && t.Node? && elm == t.item && elm != null
        invariant elm.parent == Parent(c, null) && (elm.parent == null <==> c.Top?)
        invariant c.Hole? ==> (elm == elm.parent.right <==> c.side == Right)
        invariant After(c) == rest
        decreases c
      {
        elm := elm.parent;
        c, t := c.up, Grow(c, t);
        Look(c, t);
      }
      elm := elm.parent;
    }

    /** The rightmost element below `node`. */
    method Rightmost(node: Elm, ghost c: Place, ghost t: Shape) returns (elm: Elm, ghost a: Place, ghost u: Shape)
      requires At(c, t) && t.Node? && node == t.item
      ensures u.Node? && u.right.Leaf? && elm == u.item && t == Plug(a, u) && After(a) == []
    {
      hide Linked;
      elm, a, u := node, Top, t;
      Look(c, t);
      LookRoot(Below(Right, c, t), t.right);
      while elm.right != null
        invariant u.Node? && elm == u.item && t == Plug(a, u) && After(a) == [] && At(Append(a, c), u)
        invariant elm.right == Root(u.right, null) && (elm.right == null <==> u.right.Leaf?)
        decreases u
      {
        elm := elm.right;
        a, u := Below(Right, a, u), u.right;
        Look(Append(a, c), u);
        LookRoot(Below(Right, Append(a, c), u), u.right);
      }
    }

    /** RB_PREV */
    method Prev(node: Elm) returns (elm: Elm?)
      requires Ready() && node in nodes
      ensures elm == PrevIn(order, node, null)
    {
      hide Linked;
      ghost var c, t, k := WhereIs(node);
      Neighbours(c, t);
      Look(c, t);
      LookRoot(Below(Left, c, t), t.left);
      if node.left != null {
        ghost var a, u;
        elm, a, u := Rightmost(node.left, Below(Left, c, t), t.left);
        PlugInOrder(a, u);
        return;
      }
      if node.parent != null && node == node.parent.right {
        return node.parent;
      }
      elm := node;
      ghost var rest := Before(c);
      while elm.parent != null && elm == elm.parent.left
        invariant At(c, t) && t.Node? && elm == t.item && elm != null
        invariant elm.parent == Parent(c, null) && (elm.parent == null <==> c.Top?)
        invariant c.Hole? ==> (elm == elm.parent.left <==> c.side == Left)
        invariant Before(c) == rest
        decreases c
      {
        elm := elm.parent;
        c, t := c.up, Grow(c, t);
        Look(c, t);
      }
      elm := elm.parent;
    }

    /** RB_MINMAX: the first element for a negative `val`, else the last. */
    method MinMax(val: int) returns (parent: Elm?)
      requires Ready()
      ensures parent == if order == [] then null else if val < 0 then order[0] else order[|order| - 1]
    {
      hide Linked, Rising, Sound;
      var tmp := root;
      parent := null;
      ghost var c: Place, t: Shape := Top, shape;
      Look(c, t);
      LookRoot(c, t);
      while tmp != null
        invariant At(c, t) && tmp == Root(t, null) && (tmp == null <==> t.Leaf?)
        invariant parent == Parent(c, null)
        invariant if val < 0
          then Before(c) == [] && (c.Hole? ==> c.side == Left)
          else After(c) == [] && (c.Hole? ==> c.side == Right)
        decreases t
      {
        parent := tmp;
        Look(c, t);
        LookRoot(Below(Left, c, t), t.left);
        LookRoot(Below(Right, c, t), t.right);
        if val < 0 {
          tmp := tmp.left;
          c, t := Below(Left, c, t), t.left;
        } else {
          tmp := tmp.right;
          c, t := Below(Right, c, t), t.right;
        }
      }
      PlugInOrder(c, t);
    }

    /** RB_FOREACH: from the minimum, RB_NEXT visits the sequence in order and each element once. */
    method ForEach() returns (visited: seq<Elm?>)
      requires Ready()
      ensures visited == order
    {
      hide Linked, Sound;
      visited := [];
      var x := MinMax(-1);
      Listed(x);
      while x != null
        invariant |visited| <= |order| && visited == order[..|visited|]
        invariant x == if |visited| < |order| then order[|visited|] else null
        decreases |order| - |visited|
      {
        NeighboursAt(order, |visited|, null);
        Listed(x);
        visited := visited + [x];
        x := Next(x);
      }
    }
  }
}
