// avl.c: insertion, deletion and ordered queries on the threaded AVL tree, in place on the node heap.
module Avl {
  import opened Basics
  import opened AvlNodes
  import opened AvlShape
  import opened AvlOrder
  import opened AvlSearch

  class AvlTree {
    const listHead: AvlNode
    var root: AvlNode?
    var count: nat
    const allowDups: bool
    const comp: Compare
    ghost var tree: Tree
    ghost var nodes: seq<AvlNode>

    // avl_init.
    constructor (comp: Compare, allowDups: bool)
      requires Comparator(comp)
      ensures Valid() && nodes == [] && this.comp == comp && this.allowDups == allowDups && fresh(listHead)
    {
      listHead := new AvlNode("", "");
      this.comp, this.allowDups := comp, allowDups;
      root, count := null, 0;
      tree, nodes := Leaf, [];
      new;
      InitListHead(listHead);
    }

    // avl_rotate_right: left takes the place of node, node becomes its right child and takes over left's right child.
    method RotateRightFields(node: AvlNode)
      requires node.left != null && node.left != node && node.parent != node && node.parent != node.left
      requires node.left.right != node && node.left.right != node.left
      modifies this`root, {node.parent, node, node.left}`left, {node.parent, node, node.left}`right
      modifies {node, node.left, node.left.right}`parent, {node, node.left}`balance
      ensures var left, parent, mid := old(node.left), old(node.parent), old(node.left.right);
              && node.left == mid && node.right == old(node.right) && node.parent == left
              && left.left == old(left.left) && left.right == node && left.parent == parent
              && (mid != null ==> mid.parent == node)
              && node.balance == old(node.balance) + 1 - Min(old(left.balance), 0)
              && left.balance == old(left.balance) + 1 + Max(node.balance, 0)
              && (parent == null ==> root == left)
              && (parent != null ==> root == old(root))
              && (parent != null && old(parent.left) == node ==> parent.left == left && parent.right == old(parent.right))
              && (parent != null && old(parent.left) != node ==> parent.left == old(parent.left) && parent.right == left)
    {
      var left := node.left;
      var parent := node.parent;
      left.parent := parent;
      node.parent := left;
      if parent == null {
        root := left;
      } else if parent.left == node {
        parent.left := left;
      } else {
        parent.right := left;
      }
      node.left := left.right;
      left.right := node;
      if node.left != null {
        node.left.parent := node;
      }
      node.balance := node.balance + 1 - Min(left.balance, 0);
      left.balance := left.balance + 1 + Max(node.balance, 0);
    }

    method RotateRight(node: AvlNode, ghost s: set<AvlNode>, ghost k: Path, ghost a: Tree, ghost b: Tree, ghost c: Tree, ghost h: int, ghost g: int)
      requires node.left != null && Placed(Snap(s), k, Fork(Fork(a, node.left, b), node, c), h, g) && root == RootAbove(k, node)
      modifies this`root, s`parent, s`left, s`right, s`balance
      ensures Placed(Snap(s), k, Fork(a, old(node.left), Fork(b, node, c)), h, g) && root == RootAbove(k, old(node.left))
      ensures node.parent == old(node.left)
    {
      ghost var m, left := Snap(s), node.left;
      RightRotation(m, k, a, left, b, node, c, h, g);
      RotateRightFields(node);
      RightRotationPlaced(m, Snap(s), k, a, left, b, node, c, h, g);
    }

    // avl_rotate_left: right takes the place of node, node becomes its left child and takes over right's left child.
    method RotateLeftFields(node: AvlNode)
      requires node.right != null && node.right != node && node.parent != node && node.parent != node.right
      requires node.right.left != node && node.right.left != node.right
      modifies this`root, {node.parent, node, node.right}`left, {node.parent, node, node.right}`right
      modifies {node, node.right, node.right.left}`parent, {node, node.right}`balance
      ensures var right, parent, mid := old(node.right), old(node.parent), old(node.right.left);
              && node.right == mid && node.left == old(node.left) && node.parent == right
              && right.right == old(right.right) && right.left == node && right.parent == parent
              && (mid != null ==> mid.parent == node)
              && node.balance == old(node.balance) - (1 + Max(old(right.balance), 0))
              && right.balance == old(right.balance) - (1 - Min(node.balance, 0))
              && (parent == null ==> root == right)
              && (parent != null ==> root == old(root))
              && (parent != null && old(parent.left) == node ==> parent.left == right && parent.right == old(parent.right))
              && (parent != null && old(parent.left) != node ==> parent.left == old(parent.left) && parent.right == right)
    {
      var right := node.right;
      var parent := node.parent;
      right.parent := parent;
      node.parent := right;
      if parent == null {
        root := right;
      } else if parent.left == node {
        parent.left := right;
      } else {
        parent.right := right;
      }
      node.right := right.left;
      right.left := node;
      if node.right != null {
        node.right.parent := node;
      }
      node.balance := node.balance - (1 + Max(right.balance, 0));
      right.balance := right.balance - (1 - Min(node.balance, 0));
    }

    method RotateLeft(node: AvlNode, ghost s: set<AvlNode>, ghost k: Path, ghost a: Tree, ghost b: Tree, ghost c: Tree, ghost h: int, ghost g: int)
      requires node.right != null && Placed(Snap(s), k, Fork(a, node, Fork(b, node.right, c)), h, g) && root == RootAbove(k, node)
      modifies this`root, s`parent, s`left, s`right, s`balance
      ensures Placed(Snap(s), k, Fork(Fork(a, node, b), old(node.right), c), h, g) && root == RootAbove(k, old(node.right))
      ensures node.parent == old(node.right)
    {
      ghost var m, right := Snap(s), node.right;
      LeftRotation(m, k, a, node, b, right, c, h, g);
      RotateLeftFields(node);
      LeftRotationPlaced(m, Snap(s), k, a, node, b, right, c, h, g);
    }

    // Adds d to the balance of parent, the last node of the path, which thereby shows the present height of t.
    method Tilt(parent: AvlNode, d: int, ghost s: set<AvlNode>, ghost k: Path, ghost t: Tree, ghost h: int)
      requires Fits(Snap(s), k, t, h) && !k.Top? && parent == k.n
      requires d == if k.LeftOf? then h - Height(t) else Height(t) - h
      modifies parent`balance
      ensures var u, g := Raise(k, t), HeightAbove(k, h);
              && u.Fork? && u.n == parent && parent in s && RootAbove(k, RootOf(t)) == RootAbove(k.up, parent)
              && Leans(Snap(s), k.up, u, g) && Plug(k.up, u) == Plug(k, t)
              && parent.balance == Height(u.r) - Height(u.l)
              && (-1 <= parent.balance <= 1 ==> Fits(Snap(s), k.up, u, g))
              && (if k.LeftOf? then u.l == t else u.r == t)
              && (var i, j := Height(t), if k.LeftOf? then Height(u.r) else Height(u.l);
                  && Height(u) == 1 + (if i > j then i else j)
                  && g == 1 + (if h > j then h else j)
                  && -1 <= h - j <= 1)
    {
      ghost var m, u, g := Snap(s), Raise(k, t), HeightAbove(k, h);
      parent.balance := parent.balance + d;
      Rebalanced(m, Snap(s), k, t, h, g);
      StepUp(Snap(s), k, t, g);
      RaiseLeans(Snap(s), k, t, h);
      RaiseHeights(k, t, h);
      if -1 <= parent.balance <= 1 {
        LeansFits(Snap(s), k.up, u, g);
      }
    }

    // The left side of parent is two levels too high and does not lean inwards: one rotation.
    method LeftSingle(parent: AvlNode, ghost s: set<AvlNode>, ghost k: Path, ghost u: Tree, ghost h: int) returns (ghost v: Tree)
      requires Leans(Snap(s), k, u, h) && u.Fork? && u.n == parent && root == RootAbove(k, parent)
      requires Height(u.l) == Height(u.r) + 2 && Height(u.l.r) <= Height(u.l.l)
      modifies this`root, s`parent, s`left, s`right, s`balance
      ensures Fits(Snap(s), k, v, h) && v.Fork? && parent.parent == v.n && root == RootAbove(k, v.n)
      ensures Inorder(v) == Inorder(u)
      ensures Height(v) == Height(u.l) + if Height(u.l.l) == Height(u.l.r) then 1 else 0
    {
      hide Linked, PathLinked, Disjoint, Balanced, PathBalanced, Height, Inorder;
      LeansFields(Snap(s), k, u, h);
      SingleLeftShape(u.l, parent, u.r);
      RotateRight(parent, s, k, u.l.l, u.l.r, u.r, h, HeightAbove(k, h));
      v := Fork(u.l.l, u.l.n, Fork(u.l.r, parent, u.r));
    }

    // ... and leans inwards: two rotations.
    method LeftDouble(parent: AvlNode, ghost s: set<AvlNode>, ghost k: Path, ghost u: Tree, ghost h: int) returns (ghost v: Tree)
      requires Leans(Snap(s), k, u, h) && u.Fork? && u.n == parent && root == RootAbove(k, parent)
      requires Height(u.l) == Height(u.r) + 2 && Height(u.l.r) == Height(u.l.l) + 1
      modifies this`root, s`parent, s`left, s`right, s`balance
      ensures Fits(Snap(s), k, v, h) && v.Fork? && parent.parent == v.n && root == RootAbove(k, v.n)
      ensures Inorder(v) == Inorder(u)
      ensures Height(v) == Height(u.l)
    {
      hide Linked, PathLinked, Disjoint, Placed, Balanced, PathBalanced, Height, Inorder;
      ghost var p := LeftOf(parent, u.r, k);
      LeansFields(Snap(s), k, u, h);
      DoubleLeftShape(u.l, parent, u.r);
      StepUp(Snap(s), p, u.l, h);
      RotateLeft(parent.left, s, p, u.l.l, u.l.r.l, u.l.r.r, Height(u.l), h);
      ghost var w := Fork(Fork(u.l.l, u.l.n, u.l.r.l), u.l.r.n, u.l.r.r);
      StepUp(Snap(s), p, w, h);
      assert parent.left == w.n by {
        PlacedChild(Snap(s), p, w, Height(u.l), h);
      }
      RotateRight(parent, s, k, Fork(u.l.l, u.l.n, u.l.r.l), u.l.r.r, u.r, h, HeightAbove(k, h));
      v := Fork(Fork(u.l.l, u.l.n, u.l.r.l), u.l.r.n, Fork(u.l.r.r, parent, u.r));
    }

    method RestoreLeft(parent: AvlNode, ghost s: set<AvlNode>, ghost k: Path, ghost u: Tree, ghost h: int) returns (ghost v: Tree)
      requires Leans(Snap(s), k, u, h) && u.Fork? && u.n == parent && root == RootAbove(k, parent)
      requires Height(u.l) == Height(u.r) + 2
      modifies this`root, s`parent, s`left, s`right, s`balance
      ensures Fits(Snap(s), k, v, h) && v.Fork? && parent.parent == v.n && root == RootAbove(k, v.n)
      ensures Inorder(v) == Inorder(u)
      ensures Height(v) == Height(u.l) + if Height(u.l.l) == Height(u.l.r) then 1 else 0
    {
      hide Leans, Fits, Height, Inorder, RootAbove;
      LeansFields(Snap(s), k, u, h);
      if parent.left.balance == 1 {
        v := LeftDouble(parent, s, k, u, h);
      } else {
        v := LeftSingle(parent, s, k, u, h);
      }
    }

    // The right side of parent is two levels too high and does not lean inwards: one rotation.
    method RightSingle(parent: AvlNode, ghost s: set<AvlNode>, ghost k: Path, ghost u: Tree, ghost h: int) returns (ghost v: Tree)
      requires Leans(Snap(s), k, u, h) && u.Fork? && u.n == parent && root == RootAbove(k, parent)
      requires Height(u.r) == Height(u.l) + 2 && Height(u.r.l) <= Height(u.r.r)
      modifies this`root, s`parent, s`left, s`right, s`balance
      ensures Fits(Snap(s), k, v, h) && v.Fork? && parent.parent == v.n && root == RootAbove(k, v.n)
      ensures Inorder(v) == Inorder(u)
      ensures Height(v) == Height(u.r) + if Height(u.r.l) == Height(u.r.r) then 1 else 0
    {
      hide Linked, PathLinked, Disjoint, Balanced, PathBalanced, Height, Inorder;
      LeansFields(Snap(s), k, u, h);
      SingleRightShape(u.l, parent, u.r);
      RotateLeft(parent, s, k, u.l, u.r.l, u.r.r, h, HeightAbove(k, h));
      v := Fork(Fork(u.l, parent, u.r.l), u.r.n, u.r.r);
    }

    // ... and leans inwards: two rotations.
    method RightDouble(parent: AvlNode, ghost s: set<AvlNode>, ghost k: Path, ghost u: Tree, ghost h: int) returns (ghost v: Tree)
      requires Leans(Snap(s), k, u, h) && u.Fork? && u.n == parent && root == RootAbove(k, parent)
      requires Height(u.r) == Height(u.l) + 2 && Height(u.r.l) == Height(u.r.r) + 1
      modifies this`root, s`parent, s`left, s`right, s`balance
      ensures Fits(Snap(s), k, v, h) && v.Fork? && parent.parent == v.n && root == RootAbove(k, v.n)
      ensures Inorder(v) == Inorder(u)
      ensures Height(v) == Height(u.r)
    {
      hide Linked, PathLinked, Disjoint, Placed, Balanced, PathBalanced, Height, Inorder;
      ghost var p := RightOf(u.l, parent, k);
      LeansFields(Snap(s), k, u, h);
      DoubleRightShape(u.l, parent, u.r);
      StepUp(Snap(s), p, u.r, h);
      RotateRight(parent.right, s, p, u.r.l.l, u.r.l.r, u.r.r, Height(u.r), h);
      ghost var w := Fork(u.r.l.l, u.r.l.n, Fork(u.r.l.r, u.r.n, u.r.r));
      StepUp(Snap(s), p, w, h);
      assert parent.right == w.n by {
        PlacedChild(Snap(s), p, w, Height(u.r), h);
      }
      RotateLeft(parent, s, k, u.l, u.r.l.l, Fork(u.r.l.r, u.r.n, u.r.r), h, HeightAbove(k, h));
      v := Fork(Fork(u.l, parent, u.r.l.l), u.r.l.n, Fork(u.r.l.r, u.r.n, u.r.r));
    }

    method RestoreRight(parent: AvlNode, ghost s: set<AvlNode>, ghost k: Path, ghost u: Tree, ghost h: int) returns (ghost v: Tree)
      requires Leans(Snap(s), k, u, h) && u.Fork? && u.n == parent && root == RootAbove(k, parent)
      requires Height(u.r) == Height(u.l) + 2
      modifies this`root, s`parent, s`left, s`right, s`balance
      ensures Fits(Snap(s), k, v, h) && v.Fork? && parent.parent == v.n && root == RootAbove(k, v.n)
      ensures Inorder(v) == Inorder(u)
      ensures Height(v) == Height(u.r) + if Height(u.r.l) == Height(u.r.r) then 1 else 0
    {
      hide Leans, Fits, Height, Inorder, RootAbove;
      LeansFields(Snap(s), k, u, h);
      if parent.right.balance == -1 {
        v := RightDouble(parent, s, k, u, h);
      } else {
        v := RightSingle(parent, s, k, u, h);
      }
    }

    // post_insert: the subtree t of node has grown by one level, which the balances above do not show yet ...
    method PostInsert(node: AvlNode, ghost s: set<AvlNode>, ghost k: Path, ghost t: Tree) returns (ghost t': Tree)
      requires t.Fork? && t.n == node && Height(t.l) != Height(t.r)
      requires Fits(Snap(s), k, t, Height(t) - 1) && root == RootAbove(k, node)
      modifies this`root, s`parent, s`left, s`right, s`balance
      ensures Whole(Snap(s), t', root) && Inorder(t') == Inorder(Plug(k, t))
      decreases k, 1
    {
      var parent := node.parent;
      if parent == null {
        Close(Snap(s), k, t, Height(t) - 1);
        return t;
      }
      if node == parent.left {
        t' := GrewLeft(node, s, k, t);
      } else {
        t' := GrewRight(node, s, k, t);
      }
    }

    // ... on the left of the last node of the path.
    method GrewLeft(node: AvlNode, ghost s: set<AvlNode>, ghost k: Path, ghost t: Tree) returns (ghost t': Tree)
      requires k.LeftOf? && t.Fork? && t.n == node && node.parent == k.n && Height(t.l) != Height(t.r)
      requires Fits(Snap(s), k, t, Height(t) - 1) && root == RootAbove(k, node)
      modifies this`root, s`parent, s`left, s`right, s`balance
      ensures Whole(Snap(s), t', root) && Inorder(t') == Inorder(Plug(k, t))
      decreases k, 0
    {
      hide Fits, Leans, Whole, Plug, Inorder, Height, HeightAbove, Raise, RootAbove;
      FitsFields(Snap(s), k, t, Height(t) - 1);
      var parent: AvlNode := node.parent;
      ghost var h, up, u := Height(t) - 1, k.up, Raise(k, t);
      Tilt(parent, -1, s, k, t, h);
      if parent.balance == 0 {
        CloseAbove(Snap(s), k, t, h, u);
        return Plug(up, u);
      }
      if parent.balance == -1 {
        t' := PostInsert(parent, s, up, u);
        return;
      }
      ghost var v := RestoreLeft(parent, s, up, u, HeightAbove(k, h));
      CloseAbove(Snap(s), k, t, h, v);
      return Plug(up, v);
    }

    // ... on the right of the last node of the path.
    method GrewRight(node: AvlNode, ghost s: set<AvlNode>, ghost k: Path, ghost t: Tree) returns (ghost t': Tree)
      requires k.RightOf? && t.Fork? && t.n == node && node.parent == k.n && Height(t.l) != Height(t.r)
      requires Fits(Snap(s), k, t, Height(t) - 1) && root == RootAbove(k, node)
      modifies this`root, s`parent, s`left, s`right, s`balance
      ensures Whole(Snap(s), t', root) && Inorder(t') == Inorder(Plug(k, t))
      decreases k, 0
    {
      hide Fits, Leans, Whole, Plug, Inorder, Height, HeightAbove, Raise, RootAbove;
      FitsFields(Snap(s), k, t, Height(t) - 1);
      var parent: AvlNode := node.parent;
      ghost var h, up, u := Height(t) - 1, k.up, Raise(k, t);
      Tilt(parent, 1, s, k, t, h);
      if parent.balance == 0 {
        CloseAbove(Snap(s), k, t, h, u);
        return Plug(up, u);
      }
      if parent.balance == 1 {
        t' := PostInsert(parent, s, up, u);
        return;
      }
      ghost var v := RestoreRight(parent, s, up, u, HeightAbove(k, h));
      CloseAbove(Snap(s), k, t, h, v);
      return Plug(up, v);
    }

    // avl_post_delete: the subtree t of node has lost one level, which the balances above do not show yet ...
    method PostDelete(node: AvlNode, ghost s: set<AvlNode>, ghost k: Path, ghost t: Tree) returns (ghost t': Tree)
      requires t.Fork? && t.n == node && Fits(Snap(s), k, t, Height(t) + 1) && root == RootAbove(k, node)
      modifies this`root, s`parent, s`left, s`right, s`balance
      ensures Whole(Snap(s), t', root) && Inorder(t') == Inorder(Plug(k, t))
      decreases k, 1
    {
      FitsFields(Snap(s), k, t, Height(t) + 1);
      var parent := node.parent;
      if parent == null {
        Close(Snap(s), k, t, Height(t) + 1);
        return t;
      }
      if node == parent.left {
        t' := ShrunkLeft(parent, s, k, t);
      } else {
        t' := ShrunkRight(parent, s, k, t);
      }
    }

    // ... on the left of parent, the last node of the path.
    method ShrunkLeft(parent: AvlNode, ghost s: set<AvlNode>, ghost k: Path, ghost t: Tree) returns (ghost t': Tree)
      requires k.LeftOf? && parent == k.n && Fits(Snap(s), k, t, Height(t) + 1) && root == RootAbove(k, RootOf(t))
      modifies this`root, s`parent, s`left, s`right, s`balance
      ensures Whole(Snap(s), t', root) && Inorder(t') == Inorder(Plug(k, t))
      decreases k, 0
    {
      hide Fits, Leans, Whole, Plug, Inorder, Height, HeightAbove, Raise, RootAbove;
      FitsFields(Snap(s), k, t, Height(t) + 1);
      ghost var h, up, u, g := Height(t) + 1, k.up, Raise(k, t), HeightAbove(k, Height(t) + 1);
      Tilt(parent, 1, s, k, t, h);
      if parent.balance == 0 {
        t' := PostDelete(parent, s, up, u);
        return;
      }
      if parent.balance == 1 {
        CloseAbove(Snap(s), k, t, h, u);
        return Plug(up, u);
      }
      t' := TooDeepLeft(parent, s, up, u);
    }

    // After a deletion on the left the right side of parent is two levels too high.
    method TooDeepLeft(parent: AvlNode, ghost s: set<AvlNode>, ghost k: Path, ghost u: Tree) returns (ghost t': Tree)
      requires u.Fork? && u.n == parent && Leans(Snap(s), k, u, Height(u.r) + 1) && root == RootAbove(k, parent)
      requires Height(u.r) == Height(u.l) + 2
      modifies this`root, s`parent, s`left, s`right, s`balance
      ensures Whole(Snap(s), t', root) && Inorder(t') == Inorder(Plug(k, u))
      decreases k, 2
    {
      hide Fits, Leans, Whole, Plug, Inorder, Height, RootAbove;
      LeansFields(Snap(s), k, u, Height(u.r) + 1);
      var rightBalance := parent.right.balance;
      ghost var v := RestoreRight(parent, s, k, u, Height(u.r) + 1);
      PlugSameOrder(k, u, v);
      if rightBalance == 0 {
        Close(Snap(s), k, v, Height(v));
        return Plug(k, v);
      }
      t' := PostDelete(parent.parent, s, k, v);
    }

    // ... on the right of parent, the last node of the path.
    method ShrunkRight(parent: AvlNode, ghost s: set<AvlNode>, ghost k: Path, ghost t: Tree) returns (ghost t': Tree)
      requires k.RightOf? && parent == k.n && Fits(Snap(s), k, t, Height(t) + 1) && root == RootAbove(k, RootOf(t))
      modifies this`root, s`parent, s`left, s`right, s`balance
      ensures Whole(Snap(s), t', root) && Inorder(t') == Inorder(Plug(k, t))
      decreases k, 0
    {
      hide Fits, Leans, Whole, Plug, Inorder, Height, HeightAbove, Raise, RootAbove;
      FitsFields(Snap(s), k, t, Height(t) + 1);
      ghost var h, up, u, g := Height(t) + 1, k.up, Raise(k, t), HeightAbove(k, Height(t) + 1);
      Tilt(parent, -1, s, k, t, h);
      if parent.balance == 0 {
        t' := PostDelete(parent, s, up, u);
        return;
      }
      if parent.balance == -1 {
        CloseAbove(Snap(s), k, t, h, u);
        return Plug(up, u);
      }
      t' := TooDeepRight(parent, s, up, u);
    }

    // After a deletion on the right the left side of parent is two levels too high.
    method TooDeepRight(parent: AvlNode, ghost s: set<AvlNode>, ghost k: Path, ghost u: Tree) returns (ghost t': Tree)
      requires u.Fork? && u.n == parent && Leans(Snap(s), k, u, Height(u.l) + 1) && root == RootAbove(k, parent)
      requires Height(u.l) == Height(u.r) + 2
      modifies this`root, s`parent, s`left, s`right, s`balance
      ensures Whole(Snap(s), t', root) && Inorder(t') == Inorder(Plug(k, u))
      decreases k, 2
    {
      hide Fits, Leans, Whole, Plug, Inorder, Height, RootAbove;
      LeansFields(Snap(s), k, u, Height(u.l) + 1);
      var leftBalance := parent.left.balance;
      ghost var v := RestoreLeft(parent, s, k, u, Height(u.l) + 1);
      PlugSameOrder(k, u, v);
      if leftBalance == 0 {
        Close(Snap(s), k, v, Height(v));
        return Plug(k, v);
      }
      t' := PostDelete(parent.parent, s, k, v);
    }

    // Hangs y, the root of v, where x was below parent, or makes it the root.
    method ReplaceChild(parent: AvlNode?, x: AvlNode, y: AvlNode?, ghost s: set<AvlNode>, ghost k: Path)
      requires parent == PathNode(k) && (!k.Top? ==> k.n in s && (k.LeftOf? <==> k.n.left == x))
      modifies this`root, s`left, s`right
      ensures Snap(s) == if k.Top? then old(Snap(s)) else old(Snap(s))[k.n := Rehung(old(Snap(s)), k, y)]
      ensures root == if k.Top? then y else old(root)
    {
      if parent == null {
        root := y;
      } else if parent.left == x {
        parent.left := y;
      } else {
        parent.right := y;
      }
    }

    // avl_delete_worker for a leaf.
    method UnhookLeaf(node: AvlNode, ghost s: set<AvlNode>, ghost k: Path, ghost t: Tree) returns (ghost t': Tree)
      requires t == Fork(Leaf, node, Leaf) && Fits(Snap(s), k, t, 1) && root == RootAbove(k, node)
      modifies this`root, s`parent, s`left, s`right, s`balance
      ensures Whole(Snap(s), t', root) && Inorder(t') == LeftPart(k, t) + RightPart(k, t)
    {
      ghost var m := Snap(s);
      FitsFields(m, k, t, 1);
      UnhookedOrder(k, t, Leaf);
      var parent := node.parent;
      if parent == null {
        root := null;
        return Leaf;
      }
      if parent.left == node {
        parent.left := null;
        Rehang(m, Snap(s), k, t, Leaf, 1);
        t' := ShrunkLeft(parent, s, k, Leaf);
      } else {
        parent.right := null;
        Rehang(m, Snap(s), k, t, Leaf, 1);
        t' := ShrunkRight(parent, s, k, Leaf);
      }
    }

    // avl_delete_worker for a node with one child, which takes its place.
    method UnhookInner(node: AvlNode, child: AvlNode, ghost s: set<AvlNode>, ghost k: Path, ghost t: Tree, ghost v: Tree) returns (ghost t': Tree)
      requires t.Fork? && t.n == node && Fits(Snap(s), k, t, Height(t)) && root == RootAbove(k, node)
      requires v.Fork? && v.n == child && ((t.l.Leaf? && v == t.r) || (t.r.Leaf? && v == t.l))
      modifies this`root, s`parent, s`left, s`right, s`balance
      ensures Whole(Snap(s), t', root) && Inorder(t') == LeftPart(k, t) + RightPart(k, t)
    {
      hide Fits, Whole, Plug, Inorder, Height, HeightAbove;
      ghost var m := Snap(s);
      FitsFields(m, k, t, Height(t));
      var parent := node.parent;
      child.parent := parent;
      ReplaceChild(parent, node, child, s, k);
      UnhookedInner(m, Snap(s), k, t, v);
      UnhookedOrder(k, t, v);
      if parent == null {
        Close(Snap(s), k, v, Height(v) + 1);
        return Plug(k, v);
      }
      t' := PostDelete(child, s, k, v);
    }

    method LocalMin(node: AvlNode, ghost s: set<AvlNode>, ghost t: Tree, ghost p: AvlNode?) returns (min: AvlNode)
      requires t.Fork? && t.n == node && Linked(Snap(s), t, p)
      ensures Inorder(t) != [] && min == Inorder(t)[0] && min in Nodes(t) && min.left == null
    {
      min := node;
      ghost var u, q := t, p;
      while min.left != null
        invariant u.Fork? && u.n == min && Linked(Snap(s), u, q) && Nodes(u) <= Nodes(t)
        invariant Inorder(t) != [] && Inorder(t)[0] == Inorder(u)[0]
        decreases u
      {
        assert u.l.Fork? && Linked(Snap(s), u.l, u.n) && Inorder(u)[0] == Inorder(u.l)[0];
        u, q := u.l, u.n;
        min := min.left;
      }
    }

    // x gets the tree fields of node and becomes the parent of its children.
    method TakeFields(node: AvlNode, x: AvlNode)
      requires x != node && x != node.left && x != node.right && node.left != node && node.right != node
      modifies {x}`balance, {x, node.left, node.right}`parent, {x}`left, {x}`right
      ensures x.balance == node.balance && x.parent == node.parent && x.left == node.left && x.right == node.right
      ensures x.left != null ==> x.left.parent == x
      ensures x.right != null ==> x.right.parent == x
    {
      x.balance := node.balance;
      x.parent := node.parent;
      x.left := node.left;
      x.right := node.right;
      if x.left != null {
        x.left.parent := x;
      }
      if x.right != null {
        x.right.parent := x;
      }
    }

    // Puts x, a node outside the tree, in the place of node.
    method TakePlace(node: AvlNode, x: AvlNode, ghost s: set<AvlNode>, ghost k: Path, ghost t: Tree)
      requires t.Fork? && t.n == node && Fits(Snap(s), k, t, Height(t)) && root == RootAbove(k, node)
      requires x in s && x !in Nodes(t) && x !in PathNodes(k)
      modifies this`root, s`parent, s`left, s`right, s`balance
      ensures Fits(Snap(s), k, Fork(t.l, x, t.r), Height(t)) && root == RootAbove(k, x)
    {
      hide Fits, Height, HeightAbove, Nodes, PathNodes;
      ghost var m := Snap(s);
      FitsFields(m, k, t, Height(t));
      FitsApart(m, k, t, Height(t));
      TakeFields(node, x);
      ReplaceChild(node.parent, node, x, s, k);
      TakenOver(m, Snap(s), k, t, x);
    }

    method DeleteWorker(node: AvlNode, ghost s: set<AvlNode>, ghost k: Path, ghost t: Tree) returns (ghost t': Tree)
      requires t.Fork? && t.n == node && Fits(Snap(s), k, t, Height(t)) && root == RootAbove(k, node)
      modifies this`root, s`parent, s`left, s`right, s`balance
      ensures Whole(Snap(s), t', root) && Inorder(t') == LeftPart(k, t) + RightPart(k, t)
      decreases t.l.Fork? && t.r.Fork?
    {
      hide Fits, Whole, RootAbove;
      FitsFields(Snap(s), k, t, Height(t));
      if node.left == null && node.right == null {
        t' := UnhookLeaf(node, s, k, t);
      } else if node.left == null {
        t' := UnhookInner(node, node.right, s, k, t, t.r);
      } else if node.right == null {
        t' := UnhookInner(node, node.left, s, k, t, t.l);
      } else {
        t' := DeleteInner(node, s, k, t);
      }
    }

    // Two children: the next node in order leaves its place ...
    method DeleteInner(node: AvlNode, ghost s: set<AvlNode>, ghost k: Path, ghost t: Tree) returns (ghost t': Tree)
      requires t.Fork? && t.n == node && Fits(Snap(s), k, t, Height(t)) && root == RootAbove(k, node)
      requires t.l.Fork? && t.r.Fork?
      modifies this`root, s`parent, s`left, s`right, s`balance
      ensures Whole(Snap(s), t', root) && Inorder(t') == LeftPart(k, t) + RightPart(k, t)
      decreases true, 0
    {
      hide Fits, Whole, Linked, Plug, Height, HeightAbove, Nodes, RootAbove, Distinct, Elems;
      FitsFields(Snap(s), k, t, Height(t));
      FitsChildren(Snap(s), k, t, Height(t));
      var min := LocalMin(node.right, s, t.r, node);
      ghost var km, tm := FocusOn(Snap(s), k, t, min);
      FitsFields(Snap(s), km, tm, Height(tm));
      SuccessorFocus(Snap(s), k, t, km, tm);
      ghost var t1 := DeleteWorker(min, s, km, tm);
      t' := StandIn(node, min, s, t1, LeftPart(k, t), RightPart(k, t));
    }

    // ... and takes that of node.
    method StandIn(node: AvlNode, min: AvlNode, ghost s: set<AvlNode>, ghost t1: Tree, ghost a: seq<AvlNode>, ghost b: seq<AvlNode>)
      returns (ghost t': Tree)
      requires Whole(Snap(s), t1, root) && min in s && b != [] && b[0] == min
      requires Inorder(t1) == a + [node] + b[1..] && min !in Inorder(t1)
      modifies this`root, s`parent, s`left, s`right, s`balance
      ensures Whole(Snap(s), t', root) && Inorder(t') == a + b
    {
      hide Fits, Whole, Linked, Plug, Inorder, Height, HeightAbove, Nodes, RootAbove, Distinct;
      WholeFits(Snap(s), t1, root);
      assert Inorder(t1)[|a|] == node;
      ghost var k2, t2 := FocusOn(Snap(s), Top, t1, node);
      PlugNodes(k2, t2);
      WholeRoot(Snap(s), t1, root);
      TakePlace(node, min, s, k2, t2);
      ghost var v := Fork(t2.l, min, t2.r);
      SameHeight(t2, min);
      Close(Snap(s), k2, v, Height(v));
      StandInOrder(k2, t2, min, a, b);
      t' := Plug(k2, v);
    }

    // Hangs the leaf x on the left of node, which gets the given balance, and rebalances if node has grown.
    method HangLeft(node: AvlNode, x: AvlNode, balance: int, ghost s: set<AvlNode>, ghost k: Path, ghost t: Tree) returns (ghost t': Tree)
      requires t.Fork? && t.n == node && Fits(Snap(s), k, t, Height(t)) && root == RootAbove(k, node)
      requires t.l.Leaf? && balance == Height(t.r) - 1
      requires x in s && x !in Nodes(t) && x !in PathNodes(k) && x.left == null && x.right == null && x.balance == 0
      modifies this`root, s`parent, s`left, s`right, s`balance
      ensures Whole(Snap(s), t', root) && Inorder(t') == LeftPart(k, t) + [x] + [node] + RightPart(k, t)
    {
      hide Fits, Whole, Height, HeightAbove, Plug, Inorder;
      ghost var m, u := Snap(s), Fork(Fork(Leaf, x, Leaf), node, t.r);
      FitsFields(m, k, t, Height(t));
      FitsApart(m, k, t, Height(t));
      FitsBalanced(m, k, t, Height(t));
      LeafHeight(t, x);
      LeafOrder(k, t, x);
      node.balance := balance;
      x.parent := node;
      node.left := x;
      HungLeft(m, Snap(s), k, t, x);
      if balance == 0 {
        Close(Snap(s), k, u, Height(t));
        return Plug(k, u);
      }
      t' := PostInsert(node, s, k, u);
    }

    // Hangs the leaf x on the right of node, which gets the given balance, and rebalances if node has grown.
    method HangRight(node: AvlNode, x: AvlNode, balance: int, ghost s: set<AvlNode>, ghost k: Path, ghost t: Tree) returns (ghost t': Tree)
      requires t.Fork? && t.n == node && Fits(Snap(s), k, t, Height(t)) && root == RootAbove(k, node)
      requires t.r.Leaf? && balance == 1 - Height(t.l)
      requires x in s && x !in Nodes(t) && x !in PathNodes(k) && x.left == null && x.right == null && x.balance == 0
      modifies this`root, s`parent, s`left, s`right, s`balance
      ensures Whole(Snap(s), t', root) && Inorder(t') == LeftPart(k, t) + [node] + [x] + RightPart(k, t)
    {
      hide Fits, Whole, Height, HeightAbove, Plug, Inorder;
      ghost var m, u := Snap(s), Fork(t.l, node, Fork(Leaf, x, Leaf));
      FitsFields(m, k, t, Height(t));
      FitsApart(m, k, t, Height(t));
      FitsBalanced(m, k, t, Height(t));
      LeafHeight(t, x);
      LeafOrder(k, t, x);
      node.balance := balance;
      x.parent := node;
      node.right := x;
      HungRight(m, Snap(s), k, t, x);
      if balance == 0 {
        Close(Snap(s), k, u, Height(t));
        return Plug(k, u);
      }
      t' := PostInsert(node, s, k, u);
    }

    // --- The tree as its callers see it ---

    // The list carries `nodes` in key order, the first of each run of equal keys is marked leader, and the
    // leaders, in the same order, are the search tree.
    ghost predicate Valid()
      reads this, listHead, Elems(nodes)
    {
      && Comparator(comp)
      && Threaded(comp, allowDups, nodes)
      && Ring(listHead, nodes)
      && Marked(comp, nodes)
      && Whole(Snap(Elems(nodes)), tree, root) && Inorder(tree) == Leaders(comp, nodes)
      && count == |nodes|
    }

    method FindRec(node: AvlNode, key: Key, ghost s: set<AvlNode>, ghost t: Tree, ghost p: AvlNode?)
      returns (found: AvlNode, diff: int, ghost m: nat, ghost steps: nat)
      requires Comparator(comp) && StrictlySorted(comp, Inorder(t))
      requires t.Fork? && t.n == node && Linked(Snap(s), t, p)
      ensures Splits(comp, Inorder(t), key, m) && found == Inorder(t)[m] && diff == comp(key, found.key)
      ensures diff < 0 ==> found.left == null
      ensures diff > 0 ==> found.right == null
      ensures 1 <= steps <= Height(t)
      decreases t
    {
      diff := comp(key, node.key);
      FindStep(comp, t, key);
      if diff < 0 {
        if node.left != null {
          found, diff, m, steps := FindRec(node.left, key, s, t.l, node);
          SplitsLeft(comp, t, key, m);
          return found, diff, m, steps + 1;
        }
        return node, diff, |Inorder(t.l)|, 1;
      }
      if diff > 0 {
        if node.right != null {
          found, diff, m, steps := FindRec(node.right, key, s, t.r, node);
          SplitsRight(comp, t, key, m);
          return found, diff, |Inorder(t.l)| + 1 + m, steps + 1;
        }
        return node, diff, |Inorder(t.l)|, 1;
      }
      return node, diff, |Inorder(t.l)|, 1;
    }

    // The last node of the group that found leads.
    method LastOf(found: AvlNode, ghost k: nat) returns (last: AvlNode, ghost e: nat)
      requires Ring(listHead, nodes) && Marked(comp, nodes)
      requires k < |nodes| && found == nodes[k] && IsLeader(comp, nodes, k)
      ensures k < e <= |nodes| && last == nodes[e - 1] && Group(comp, nodes, k, e)
    {
      hide Ring;
      last, e := found, k + 1;
      RingLinks(listHead, nodes, e);
      while last.next != listHead
        invariant Ring(listHead, nodes) && k < e <= |nodes| && last == nodes[e - 1] && last.next == Cell(listHead, nodes, e + 1)
        invariant forall i {:trigger IsLeader(comp, nodes, i)} :: k < i < e ==> !IsLeader(comp, nodes, i)
        decreases |nodes| - e
      {
        var next: AvlNode := last.next;
        if next.leader {
          break;
        }
        last, e := next, e + 1;
        RingLinks(listHead, nodes, e);
      }
      RingLinks(listHead, nodes, e);
    }

    method AvlInsertBefore(pos: AvlNode, node: AvlNode, ghost k: nat)
      requires Ring(listHead, nodes) && k < |nodes| && pos == nodes[k] && node !in nodes && node != listHead
      modifies this`count, {listHead, node} + Elems(nodes)`next, {listHead, node} + Elems(nodes)`prev
      ensures Ring(listHead, nodes[..k] + [node] + nodes[k..]) && count == old(count) + 1
    {
      ListAddTail(node, pos, listHead, nodes, k);
      count := count + 1;
    }

    method AvlInsertAfter(pos: AvlNode, node: AvlNode, ghost e: nat)
      requires Ring(listHead, nodes) && 0 < e <= |nodes| && pos == nodes[e - 1] && node !in nodes && node != listHead
      modifies this`count, {listHead, node} + Elems(nodes)`next, {listHead, node} + Elems(nodes)`prev
      ensures Ring(listHead, nodes[..e] + [node] + nodes[e..]) && count == old(count) + 1
    {
      ListAdd(node, pos, listHead, nodes, e);
      count := count + 1;
    }

    // A further node with the key of the group that ends with last.
    method InsertFollower(last: AvlNode, node: AvlNode, ghost e: nat)
      requires Valid() && allowDups && node !in nodes && node != listHead && !node.leader
      requires 0 < e <= |nodes| && last == nodes[e - 1] && comp(node.key, last.key) == 0
      requires forall j :: e <= j < |nodes| ==> comp(node.key, nodes[j].key) < 0
      modifies this, node, listHead, Elems(nodes)
      ensures Valid() && nodes == InsertSorted(comp, old(nodes), node)
    {
      hide Whole, Inorder, Leaders, Sorted, Comparator, Ring, Marked, InsertSorted, Nodes;
      ghost var m, l := Snap(Elems(nodes)), nodes;
      NewFollower(comp, l, node, e);
      TreeElems(comp, l, tree);
      AvlInsertAfter(last, node, e);
      SplicedMarked(comp, l, node, e);
      nodes := l[..e] + [node] + l[e..];
      WholeFrame(m, Snap(Elems(nodes)), tree, root);
    }

    // A new leader right before the leader at, which has no left child.
    method InsertLeft(at: AvlNode, node: AvlNode, balance: int, ghost k: nat, ghost e: nat)
      requires Valid() && node !in nodes && node != listHead && node.leader
      requires node.left == null && node.right == null && node.balance == 0
      requires k < e <= |nodes| && Group(comp, nodes, k, e) && IsLeader(comp, nodes, k) && at == nodes[k] && at.left == null && balance == at.balance - 1
      requires Gap(comp, nodes, node.key, k)
      modifies this, node, listHead, Elems(nodes)
      ensures Valid() && nodes == InsertSorted(comp, old(nodes), node) && !HasKey(comp, old(nodes), node.key)
    {
      hide Fits, Whole, Inorder, Plug, Nodes, PathNodes, Leaders, Comparator, InsertSorted, LeftPart, RightPart, Height, Ring, Marked, Threaded, HasKey, Gap, Group;
      ghost var s, l := Elems(nodes) + {node}, nodes;
      ghost var p, t := PrepareLeft(at, node, s, k, e);
      AvlInsertBefore(at, node, k);
      ghost var tree' := HangLeft(at, node, balance, s, p, t);
      tree, nodes := tree', l[..k] + [node] + l[k..];
      assert Elems(nodes) == s;
    }

    lemma PrepareLeft(at: AvlNode, node: AvlNode, s: set<AvlNode>, k: nat, e: nat) returns (p: Path, t: Tree)
      requires Valid() && node !in nodes && s == Elems(nodes) + {node} && node.leader
      requires k < e <= |nodes| && Group(comp, nodes, k, e) && IsLeader(comp, nodes, k) && at == nodes[k]
      requires Gap(comp, nodes, node.key, k) && at.left == null
      ensures t.Fork? && t.n == at && Fits(Snap(s), p, t, Height(t)) && root == RootAbove(p, at)
      ensures node !in Nodes(t) && node !in PathNodes(p) && t.l.Leaf? && at.balance == Height(t.r)
      ensures var l := nodes[..k] + [node] + nodes[k..];
              && Threaded(comp, allowDups, l) && Marked(comp, l) && l == InsertSorted(comp, nodes, node) && !HasKey(comp, nodes, node.key)
              && Leaders(comp, l) == LeftPart(p, t) + [node] + [at] + RightPart(p, t)
    {
      hide Fits, Whole, Inorder, Plug, Leaders, Comparator, InsertSorted, LeftPart, RightPart, Height, Ring, Marked, Threaded, HasKey, Gap, Group;
      p, t := PlaceInTree(at, s, k);
      LeaderPlace(comp, nodes, k, e, LeftPart(p, t), RightPart(p, t));
      NewGroup(comp, allowDups, nodes, node, k);
      LeaderBefore(comp, allowDups, nodes, node, k, LeftPart(p, t), at, RightPart(p, t));
      SplicedMarked(comp, nodes, node, k);
    }

    // A new leader right after the group of the leader at, which has no right child.
    method InsertRight(at: AvlNode, last: AvlNode, node: AvlNode, balance: int, ghost k: nat, ghost e: nat)
      requires Valid() && node !in nodes && node != listHead && node.leader
      requires node.left == null && node.right == null && node.balance == 0
      requires k < e <= |nodes| && Group(comp, nodes, k, e) && IsLeader(comp, nodes, k) && at == nodes[k] && at.right == null && balance == at.balance + 1 && last == nodes[e - 1]
      requires Gap(comp, nodes, node.key, e)
      modifies this, node, listHead, Elems(nodes)
      ensures Valid() && nodes == InsertSorted(comp, old(nodes), node) && !HasKey(comp, old(nodes), node.key)
    {
      hide Fits, Whole, Inorder, Plug, Nodes, PathNodes, Leaders, Comparator, InsertSorted, LeftPart, RightPart, Height, Ring, Marked, Threaded, HasKey, Gap, Group;
      ghost var s, l := Elems(nodes) + {node}, nodes;
      ghost var p, t := PrepareRight(at, node, s, k, e);
      AvlInsertAfter(last, node, e);
      ghost var tree' := HangRight(at, node, balance, s, p, t);
      tree, nodes := tree', l[..e] + [node] + l[e..];
      assert Elems(nodes) == s;
    }

    lemma PrepareRight(at: AvlNode, node: AvlNode, s: set<AvlNode>, k: nat, e: nat) returns (p: Path, t: Tree)
      requires Valid() && node !in nodes && s == Elems(nodes) + {node} && node.leader
      requires k < e <= |nodes| && Group(comp, nodes, k, e) && IsLeader(comp, nodes, k) && at == nodes[k]
      requires Gap(comp, nodes, node.key, e) && at.right == null
      ensures t.Fork? && t.n == at && Fits(Snap(s), p, t, Height(t)) && root == RootAbove(p, at)
      ensures node !in Nodes(t) && node !in PathNodes(p) && t.r.Leaf? && at.balance + Height(t.l) == 0
      ensures var l := nodes[..e] + [node] + nodes[e..];
              && Threaded(comp, allowDups, l) && Marked(comp, l) && l == InsertSorted(comp, nodes, node) && !HasKey(comp, nodes, node.key)
              && Leaders(comp, l) == LeftPart(p, t) + [at] + [node] + RightPart(p, t)
    {
      hide Fits, Whole, Inorder, Plug, Leaders, Comparator, InsertSorted, LeftPart, RightPart, Height, Ring, Marked, Threaded, HasKey, Gap, Group;
      p, t := PlaceInTree(at, s, k);
      LeaderPlace(comp, nodes, k, e, LeftPart(p, t), RightPart(p, t));
      NewGroup(comp, allowDups, nodes, node, e);
      LeaderAfter(comp, allowDups, nodes, node, e, LeftPart(p, t), at, RightPart(p, t));
      SplicedMarked(comp, nodes, node, e);
    }

    // The place in the tree of the leader at position k, in the heap of the nodes s.
    lemma PlaceInTree(at: AvlNode, s: set<AvlNode>, k: nat) returns (p: Path, t: Tree)
      requires Valid() && Elems(nodes) <= s
      requires k < |nodes| && at == nodes[k] && IsLeader(comp, nodes, k)
      ensures t.Fork? && t.n == at && Fits(Snap(s), p, t, Height(t)) && root == RootAbove(p, at)
      ensures Leaders(comp, nodes) == LeftPart(p, t) + [at] + RightPart(p, t) && Distinct(Leaders(comp, nodes))
      ensures Nodes(t) + PathNodes(p) == Elems(Leaders(comp, nodes)) && Elems(Leaders(comp, nodes)) <= Elems(nodes)
      ensures -1 <= at.balance <= 1
      ensures at.left == null ==> t.l.Leaf? && at.balance == Height(t.r)
      ensures at.right == null ==> t.r.Leaf? && at.balance + Height(t.l) == 0
    {
      hide Fits, Whole, Inorder, Plug, Leaders, Sorted, Comparator, LeftPart, RightPart, Distinct, Ring, Marked, Threaded, Nodes, PathNodes;
      TreeElems(comp, nodes, tree);
      WholeFrame(Snap(Elems(nodes)), Snap(s), tree, root);
      WholeFits(Snap(s), tree, root);
      WholeRoot(Snap(s), tree, root);
      LeaderIn(comp, nodes, k);
      p, t := FocusOn(Snap(s), Top, tree, at);
      PlugNodes(p, t);
      PlugParts(p, t);
      FitsFields(Snap(s), p, t, Height(t));
      FitsBalanced(Snap(s), p, t, Height(t));
    }

    // Where a search for the key ends: at the leader of the group nodes[k..], which splits the leaders around the key.
    // It makes at most logarithmically many comparisons.
    method FindPlace(key: Key) returns (found: AvlNode, diff: int, ghost m: nat, ghost k: nat, ghost steps: nat)
      requires Valid() && root != null
      ensures Splits(comp, Leaders(comp, nodes), key, m) && diff == comp(key, found.key)
      ensures k < |nodes| && found == nodes[k] && IsLeader(comp, nodes, k) && |Leaders(comp, nodes[..k])| == m
      ensures diff < 0 ==> found.left == null
      ensures diff > 0 ==> found.right == null
      ensures Fib(steps + 2) <= |nodes| + 1
    {
      hide Whole, Sorted, Comparator, Ring, Marked, Splits, Balanced, Inorder, Linked, Leaders;
      ghost var s := Elems(nodes);
      WholeLinked(Snap(s), tree, root);
      ThreadedSorted(comp, allowDups, nodes);
      LeadersSorted(comp, nodes);
      found, diff, m, steps := FindRec(root, key, s, tree, null);
      SplitsRange(comp, Inorder(tree), key, m);
      k := LeaderIndex(comp, nodes, m);
      HeightBound(tree);
      FibMonotone(steps + 2, Height(tree) + 2);
      LeadersShort(comp, nodes);
    }

    // avl_insert.
    method Insert(node: AvlNode) returns (rc: int)
      requires Valid() && node !in nodes && node != listHead
      modifies this, node, listHead, Elems(nodes)
      ensures Valid()
      ensures rc == if !allowDups && HasKey(comp, old(nodes), node.key) then -1 else 0
      ensures rc == 0 ==> nodes == InsertSorted(comp, old(nodes), node)
      ensures rc == -1 ==> nodes == old(nodes) && tree == old(tree)
    {
      hide Whole, Sorted, Comparator, Ring, Marked, Threaded, Inorder, Leaders, HasKey, InsertSorted;
      node.parent := null;
      node.left := null;
      node.right := null;
      node.balance := 0;
      node.leader := true;
      if root == null {
        InsertFirst(node);
        rc := 0;
      } else {
        rc := InsertNext(node);
      }
    }

    // avl_insert into a tree that has a root.
    method InsertNext(node: AvlNode) returns (rc: int)
      requires Valid() && root != null && node !in nodes && node != listHead && node.leader
      requires node.parent == null && node.left == null && node.right == null && node.balance == 0
      modifies this, node, listHead, Elems(nodes)
      ensures Valid()
      ensures rc == if !allowDups && HasKey(comp, old(nodes), node.key) then -1 else 0
      ensures rc == 0 ==> nodes == InsertSorted(comp, old(nodes), node)
      ensures rc == -1 ==> nodes == old(nodes) && tree == old(tree)
    {
      hide Whole, Sorted, Comparator, Ring, Marked, Threaded, Splits, Inorder, Leaders, Gap, Group, HasKey, InsertSorted;
      var found, diff;
      ghost var m, k, steps;
      found, diff, m, k, steps := FindPlace(node.key);
      var last;
      ghost var e;
      last, e := LastOf(found, k);
      diff := comp(node.key, found.key);
      PlaceInList(comp, allowDups, nodes, node.key, m, k, e);
      ghost var p, t := PlaceInTree(found, Elems(nodes), k);
      if diff == 0 {
        if !allowDups {
          return -1;
        }
        node.leader := false;
        InsertFollower(last, node, e);
        return 0;
      }
      if found.balance == 1 {
        InsertLeft(found, node, 0, k, e);
        return 0;
      }
      if found.balance == -1 {
        InsertRight(found, last, node, 0, k, e);
        return 0;
      }
      if diff < 0 {
        InsertLeft(found, node, -1, k, e);
        return 0;
      }
      InsertRight(found, last, node, 1, k, e);
      return 0;
    }

    method InsertFirst(node: AvlNode)
      requires Valid() && root == null && node !in nodes && node != listHead && node.leader
      requires node.parent == null && node.left == null && node.right == null && node.balance == 0
      modifies this, node, listHead, Elems(nodes)
      ensures Valid() && nodes == InsertSorted(comp, old(nodes), node) && !HasKey(comp, old(nodes), node.key)
    {
      hide Whole, Inorder, Leaders, Sorted, Comparator, Ring, Marked, Threaded, InsertSorted, HasKey;
      NoNodes(comp, nodes, Snap(Elems(nodes)), tree);
      ListAdd(node, listHead, listHead, nodes, 0);
      root := node;
      count := 1;
      OneNode(comp, allowDups, node);
      tree := Fork(Leaf, node, Leaf);
      assert [] + [node] + [] == [node];
      nodes := [node];
    }

    // --- Deletion ---

    // list_del and the count.
    method AvlRemove(node: AvlNode, ghost k: nat)
      requires Ring(listHead, nodes) && k < |nodes| && node == nodes[k] && count > 0
      modifies this`count, {listHead} + Elems(nodes)`next, {listHead} + Elems(nodes)`prev
      ensures Ring(listHead, nodes[..k] + nodes[k + 1..]) && count == old(count) - 1
      ensures node.next == null && node.prev == null
    {
      ListDel(node, listHead, nodes, k);
      count := count - 1;
    }

    // avl_delete.
    method Delete(node: AvlNode)
      requires Valid() && node in nodes
      modifies this, listHead, Elems(nodes)
      ensures Valid() && nodes == Without(old(nodes), node)
      ensures node.next == null && node.prev == null
    {
      hide Whole, Inorder, Leaders, Sorted, Comparator, Ring, Marked, Threaded, Without;
      ghost var k :| 0 <= k < |nodes| && nodes[k] == node;
      RingDistinct(listHead, nodes);
      WithoutAt(nodes, k);
      RingLinks(listHead, nodes, k + 1);
      MarkedAt(comp, nodes, k);
      if !allowDups {
        AllLeaders(comp, nodes, k + 1);
      }
      if node.leader {
        var next: AvlNode := node.next;
        if allowDups && next != listHead && !next.leader {
          HandOver(node, next, k);
        } else {
          DeleteGroup(node, k);
        }
      } else {
        DeleteFollower(node, k);
      }
    }

    // Takes the node off the list, once tree' is the tree of the remaining leaders.
    method FinishDelete(node: AvlNode, ghost k: nat, ghost tree': Tree)
      requires Comparator(comp) && Ring(listHead, nodes) && k < |nodes| && node == nodes[k] && count == |nodes|
      requires var l := nodes[..k] + nodes[k + 1..];
               && Threaded(comp, allowDups, l) && Marked(comp, l)
               && Whole(Snap(Elems(nodes)), tree', root) && Inorder(tree') == Leaders(comp, l)
      modifies this, listHead, Elems(nodes)
      ensures Valid() && nodes == old(nodes)[..k] + old(nodes)[k + 1..] && node.next == null && node.prev == null
    {
      hide Whole, Inorder, Leaders, Comparator, Ring, Marked, Threaded, Nodes;
      ghost var m, l := Snap(Elems(nodes)), nodes;
      AvlRemove(node, k);
      tree, nodes := tree', l[..k] + l[k + 1..];
      TreeElems(comp, nodes, tree);
      WholeFrame(m, Snap(Elems(nodes)), tree, root);
    }

    // A node that leads no group: the tree does not know it.
    method DeleteFollower(node: AvlNode, ghost k: nat)
      requires Valid() && k < |nodes| && node == nodes[k] && !IsLeader(comp, nodes, k)
      modifies this, listHead, Elems(nodes)
      ensures Valid() && nodes == old(nodes)[..k] + old(nodes)[k + 1..] && node.next == null && node.prev == null
    {
      hide Whole, Inorder, Leaders, Comparator, Ring, Marked, Threaded;
      FollowerGone(comp, allowDups, nodes, k);
      CutMarked(comp, nodes, k);
      FinishDelete(node, k, tree);
    }

    // The leader and only member of its group leaves the tree.
    method DeleteGroup(node: AvlNode, ghost k: nat)
      requires Valid() && k < |nodes| && node == nodes[k] && IsLeader(comp, nodes, k)
      requires k + 1 < |nodes| ==> IsLeader(comp, nodes, k + 1)
      modifies this, listHead, Elems(nodes)
      ensures Valid() && nodes == old(nodes)[..k] + old(nodes)[k + 1..] && node.next == null && node.prev == null
    {
      hide Fits, Whole, Inorder, Leaders, Comparator, Ring, Marked, Threaded, LeftPart, RightPart, Height;
      GroupGone(comp, allowDups, nodes, k);
      ghost var p, t := PlaceInTree(node, Elems(nodes), k);
      LeaderPlace(comp, nodes, k, k + 1, LeftPart(p, t), RightPart(p, t));
      ghost var tree' := DeleteWorker(node, Elems(nodes), p, t);
      CutMarked(comp, nodes, k);
      FinishDelete(node, k, tree');
    }

    // The leader of a larger group hands its place in the tree to the next member.
    method HandOver(node: AvlNode, next: AvlNode, ghost k: nat)
      requires Valid() && allowDups && k + 1 < |nodes| && node == nodes[k] && next == nodes[k + 1]
      requires IsLeader(comp, nodes, k) && !IsLeader(comp, nodes, k + 1)
      modifies this, listHead, Elems(nodes)
      ensures Valid() && nodes == old(nodes)[..k] + old(nodes)[k + 1..] && node.next == null && node.prev == null
    {
      hide Fits, Whole, Inorder, Leaders, Comparator, Ring, Marked, MarkedBut, Threaded, LeftPart, RightPart, Height, Plug, Distinct;
      ghost var s, l := Elems(nodes), nodes[..k] + nodes[k + 1..];
      ghost var p, t := PlaceSuccessor(node, next, k);
      Promote(next, k + 1);
      TakePlace(node, next, s, p, t);
      PromotedMarks(next, k);
      ghost var v := Fork(t.l, next, t.r);
      SameHeight(t, next);
      Close(Snap(s), p, v, Height(v));
      FinishDelete(node, k, Plug(p, v));
    }

    method Promote(node: AvlNode, ghost k: nat)
      requires Marked(comp, nodes) && Ring(listHead, nodes) && k < |nodes| && node == nodes[k]
      modifies node`leader
      ensures MarkedBut(comp, nodes, k) && node.leader && Distinct(nodes)
    {
      node.leader := true;
    }

    lemma PlaceSuccessor(node: AvlNode, next: AvlNode, k: nat) returns (p: Path, t: Tree)
      requires Valid() && allowDups && k + 1 < |nodes| && node == nodes[k] && next == nodes[k + 1]
      requires IsLeader(comp, nodes, k) && !IsLeader(comp, nodes, k + 1)
      ensures t.Fork? && t.n == node && Fits(Snap(Elems(nodes)), p, t, Height(t)) && root == RootAbove(p, node)
      ensures next !in Nodes(t) && next !in PathNodes(p)
      ensures var l := nodes[..k] + nodes[k + 1..];
              Threaded(comp, allowDups, l) && Inorder(Plug(p, Fork(t.l, next, t.r))) == Leaders(comp, l)
    {
      hide Fits, Whole, Inorder, Leaders, Comparator, Ring, Marked, Threaded, LeftPart, RightPart, Height, Plug, Distinct;
      ThreadedSorted(comp, allowDups, nodes);
      LeaderGone(comp, nodes, k);
      LeaderGoneLeaders(comp, nodes, k);
      RingDistinct(listHead, nodes);
      FollowerNotIn(comp, nodes, k + 1);
      p, t := PlaceInTree(node, Elems(nodes), k);
      UniqueSplit(LeftPart(p, t), RightPart(p, t), Leaders(comp, nodes[..k]), Leaders(comp, nodes[k..])[1..], node);
      PlugParts(p, Fork(t.l, next, t.r));
      SameParts(p, t, next);
    }

    lemma PromotedMarks(next: AvlNode, k: nat)
      requires Comparator(comp) && Threaded(comp, allowDups, nodes) && Distinct(nodes)
      requires k + 1 < |nodes| && next == nodes[k + 1] && IsLeader(comp, nodes, k) && !IsLeader(comp, nodes, k + 1)
      requires next.leader && MarkedBut(comp, nodes, k + 1)
      ensures Marked(comp, nodes[..k] + nodes[k + 1..])
    {
      hide Comparator, Marked, MarkedBut, Threaded, Distinct;
      ThreadedSorted(comp, allowDups, nodes);
      LeaderGone(comp, nodes, k);
      CutMarkedLeader(comp, nodes, k);
    }

    lemma ListFacts()
      requires Valid()
      ensures Comparator(comp) && Threaded(comp, allowDups, nodes) && Ring(listHead, nodes) && Distinct(nodes)
    {
      RingDistinct(listHead, nodes);
    }

    // --- Queries ---

    // avl_find: the leader of the group with this key.
    method Find(key: Key) returns (node: AvlNode?)
      requires Valid()
      ensures node == null <==> !HasKey(comp, nodes, key)
      ensures node != null ==> node in nodes && node.leader && comp(key, node.key) == 0
    {
      hide Whole, Sorted, Comparator, Ring, Threaded, Splits, Inorder, Leaders, Gap, Group;
      if root == null {
        NoNodes(comp, nodes, Snap(Elems(nodes)), tree);
        return null;
      }
      var found, diff;
      ghost var m, k, steps;
      found, diff, m, k, steps := FindPlace(key);
      MarkedAt(comp, nodes, k);
      KeyAtPlace(comp, allowDups, nodes, key, m, k);
      return if diff == 0 then found else null;
    }

    // avl_find_lessequal: the last node of the list whose key is not above key.
    method FindLessEqual(key: Key) returns (node: AvlNode?)
      requires Valid()
      ensures var u := UpperBound(comp, nodes, key); node == if u == 0 then null else nodes[u - 1]
    {
      hide Whole, Sorted, Comparator, Ring, Marked, Threaded, Splits, Inorder, Leaders, UpperBound;
      ghost var u := UpperBound(comp, nodes, key);
      if root == null {
        NoNodes(comp, nodes, Snap(Elems(nodes)), tree);
        return null;
      }
      ThreadedSorted(comp, allowDups, nodes);
      UpperBoundSplits(comp, nodes, key);
      var diff;
      ghost var m, j, steps;
      var at: AvlNode;
      at, diff, m, j, steps := FindPlace(key);
      while diff < 0
        invariant Ring(listHead, nodes) && 0 <= j < |nodes| && at == nodes[j] && diff == comp(key, at.key)
        decreases j
      {
        RingLinks(listHead, nodes, j);
        if at.prev == listHead {
          return null;
        }
        at, j := at.prev, j - 1;
        diff := comp(key, at.key);
      }
      var next := at;
      ghost var i := j;
      while diff >= 0
        invariant Ring(listHead, nodes) && 0 <= i < |nodes| && next == nodes[i] && diff == comp(key, next.key)
        invariant 0 <= j < u && at == nodes[j] && (i == j || i == j + 1)
        invariant diff < 0 ==> i == j + 1
        decreases |nodes| - i, diff >= 0
      {
        at, j := next, i;
        RingLinks(listHead, nodes, j + 1);
        if at.next == listHead {
          break;
        }
        next, i := at.next, j + 1;
        diff := comp(key, next.key);
      }
      return at;
    }

    // avl_find_greaterequal: the first node of the list whose key is not below key.
    method FindGreaterEqual(key: Key) returns (node: AvlNode?)
      requires Valid()
      ensures var l := LowerBound(comp, nodes, key); node == if l == |nodes| then null else nodes[l]
    {
      hide Whole, Sorted, Comparator, Ring, Marked, Threaded, Splits, Inorder, Leaders, LowerBound;
      ghost var l := LowerBound(comp, nodes, key);
      if root == null {
        NoNodes(comp, nodes, Snap(Elems(nodes)), tree);
        return null;
      }
      ThreadedSorted(comp, allowDups, nodes);
      LowerBoundSplits(comp, nodes, key);
      var diff;
      ghost var m, j, steps;
      var at: AvlNode;
      at, diff, m, j, steps := FindPlace(key);
      while diff > 0
        invariant Ring(listHead, nodes) && 0 <= j < |nodes| && at == nodes[j] && diff == comp(key, at.key)
        decreases |nodes| - j
      {
        RingLinks(listHead, nodes, j + 1);
        if at.next == listHead {
          return null;
        }
        at, j := at.next, j + 1;
        diff := comp(key, at.key);
      }
      var next := at;
      ghost var i := j;
      while diff <= 0
        invariant Ring(listHead, nodes) && 0 <= i < |nodes| && next == nodes[i] && diff == comp(key, next.key)
        invariant l <= j < |nodes| && at == nodes[j] && (i == j || i == j - 1)
        invariant diff > 0 ==> i == j - 1
        decreases i, diff <= 0
      {
        at, j := next, i;
        RingLinks(listHead, nodes, j);
        if at.prev == listHead {
          break;
        }
        next, i := at.prev, j - 1;
        diff := comp(key, next.key);
      }
      return at;
    }

    // avl_remove_all_elements: every node is visited once, in list order, and its links may be gone afterwards.
    method RemoveAll() returns (visited: seq<AvlNode>)
      requires Valid()
      modifies this, listHead, Elems(nodes)
      ensures Valid() && nodes == [] && visited == old(nodes)
    {
      hide Whole, Inorder, Leaders, Comparator, Marked, Threaded, Ring;
      ghost var l := nodes;
      RingForward(listHead, l);
      RingDistinct(listHead, l);
      var element: AvlNode := listHead.next;
      var ptr: AvlNode := element.next;
      InitListHead(listHead);
      EmptyRing(listHead);
      root := null;
      visited := [];
      ghost var i := 0;
      while count > 0
        invariant 0 <= i <= |l| && count == |l| - i && visited == l[..i] && root == null && nodes == l
        invariant i < |l| ==> element == l[i] && ptr == Cell(listHead, l, i + 2)
        invariant forall j :: i < j < |l| ==> l[j].next == Cell(listHead, l, j + 2)
        invariant listHead.next == listHead && listHead.prev == listHead
      {
        visited := visited + [element];
        element.next, element.prev := null, null;
        element := ptr;
        ptr := ptr.next;
        i := i + 1;
        count := count - 1;
      }
      EmptyRing(listHead);
      tree, nodes := Leaf, [];
      NoTree(comp, allowDups);
    }
  }
}
