// The search tree inside the node heap: its shape as a value, the heap that realises a shape, and the
// place of one subtree in the whole tree.
module AvlShape {
  import opened Basics
  import opened AvlNodes

  datatype Tree = Leaf | Fork(l: Tree, n: AvlNode, r: Tree)

  // The path from a subtree up to the root, with what hangs off it on the other side.
  datatype Path = Top | LeftOf(n: AvlNode, r: Tree, up: Path) | RightOf(l: Tree, n: AvlNode, up: Path)

  ghost function Height(t: Tree): nat {
    if t.Leaf? then 0 else 1 + Max(Height(t.l), Height(t.r))
  }

  ghost function Nodes(t: Tree): set<AvlNode> {
    if t.Leaf? then {} else Nodes(t.l) + {t.n} + Nodes(t.r)
  }

  ghost function Inorder(t: Tree): seq<AvlNode> {
    if t.Leaf? then [] else Inorder(t.l) + [t.n] + Inorder(t.r)
  }

  ghost function RootOf(t: Tree): AvlNode? {
    if t.Leaf? then null else t.n
  }

  // Sibling heights differ by at most one, everywhere.
  ghost predicate Balanced(t: Tree) {
    t.Fork? ==> -1 <= Height(t.r) - Height(t.l) <= 1 && Balanced(t.l) && Balanced(t.r)
  }

  // No node occurs twice.
  ghost predicate Apart(t: Tree) {
    t.Fork? ==>
      && t.n !in Nodes(t.l) && t.n !in Nodes(t.r) && Nodes(t.l) !! Nodes(t.r)
      && Apart(t.l) && Apart(t.r)
  }

  // The tree fields of one node, and of all nodes of a tree.
  datatype Fields = Fields(parent: AvlNode?, left: AvlNode?, right: AvlNode?, balance: int)
  type Links = map<AvlNode, Fields>

  // The tree fields of the nodes of s as they are now.
  ghost function Snap(s: set<AvlNode>): Links
    reads s`parent, s`left, s`right, s`balance
  {
    map x | x in s :: Fields(x.parent, x.left, x.right, x.balance)
  }

  // The fields below parent p realise t: child and parent links agree with the shape, and each stored balance
  // is height(right) - height(left).
  ghost predicate Linked(m: Links, t: Tree, p: AvlNode?) {
    t.Fork? ==>
      && t.n in m && m[t.n] == Fields(p, RootOf(t.l), RootOf(t.r), Height(t.r) - Height(t.l))
      && Linked(m, t.l, t.n) && Linked(m, t.r, t.n)
  }

  ghost function PathNodes(k: Path): set<AvlNode> {
    match k
    case Top => {}
    case LeftOf(n, r, up) => {n} + Nodes(r) + PathNodes(up)
    case RightOf(l, n, up) => Nodes(l) + {n} + PathNodes(up)
  }

  ghost function PathNode(k: Path): AvlNode? {
    if k.Top? then null else k.n
  }

  // The root of the whole tree when x is the root of the subtree at the end of the path.
  ghost function RootAbove(k: Path, x: AvlNode?): AvlNode? {
    if k.Top? then x else RootAbove(k.up, k.n)
  }

  ghost function Plug(k: Path, t: Tree): Tree {
    match k
    case Top => t
    case LeftOf(n, r, up) => Plug(up, Fork(t, n, r))
    case RightOf(l, n, up) => Plug(up, Fork(l, n, t))
  }

  ghost function Before(k: Path): seq<AvlNode> {
    match k
    case Top => []
    case LeftOf(n, r, up) => Before(up)
    case RightOf(l, n, up) => Before(up) + Inorder(l) + [n]
  }

  ghost function After(k: Path): seq<AvlNode> {
    match k
    case Top => []
    case LeftOf(n, r, up) => [n] + Inorder(r) + After(up)
    case RightOf(l, n, up) => After(up)
  }

  // The path is balanced when the subtree at its end has height h.
  ghost predicate PathBalanced(k: Path, h: int) {
    match k
    case Top => true
    case LeftOf(n, r, up) =>
      -1 <= Height(r) - h <= 1 && Balanced(r) && PathBalanced(up, 1 + Max(h, Height(r)))
    case RightOf(l, n, up) =>
      -1 <= h - Height(l) <= 1 && Balanced(l) && PathBalanced(up, 1 + Max(Height(l), h))
  }

  ghost function Sibling(k: Path): Tree
    requires !k.Top?
  {
    if k.LeftOf? then k.r else k.l
  }

  // The subtree one node further up.
  ghost function Raise(k: Path, t: Tree): Tree
    requires !k.Top?
  {
    if k.LeftOf? then Fork(t, k.n, k.r) else Fork(k.l, k.n, t)
  }

  ghost predicate PathApart(k: Path) {
    match k
    case Top => true
    case LeftOf(n, r, up) => n !in Nodes(r) && n !in PathNodes(up) && Nodes(r) !! PathNodes(up) && Apart(r) && PathApart(up)
    case RightOf(l, n, up) => n !in Nodes(l) && n !in PathNodes(up) && Nodes(l) !! PathNodes(up) && Apart(l) && PathApart(up)
  }

  // The height of the subtree above when the one at the end of the path has height h.
  ghost function HeightAbove(k: Path, h: int): int {
    match k
    case Top => h
    case LeftOf(n, r, up) => 1 + Max(h, Height(r))
    case RightOf(l, n, up) => 1 + Max(Height(l), h)
  }

  // The fields on the path fit around a subtree with root x.  The stored balances lag behind: the last node of
  // the path counts with height h for that subtree, and the rest of the path with height g for the subtree of
  // that last node.
  ghost predicate PathLinked(m: Links, k: Path, x: AvlNode?, h: int, g: int) {
    match k
    case Top => true
    case LeftOf(n, r, up) =>
      && n in m && m[n] == Fields(PathNode(up), x, RootOf(r), Height(r) - h)
      && Linked(m, r, n) && PathLinked(m, up, n, g, HeightAbove(up, g))
    case RightOf(l, n, up) =>
      && n in m && m[n] == Fields(PathNode(up), RootOf(l), x, h - Height(l))
      && Linked(m, l, n) && PathLinked(m, up, n, g, HeightAbove(up, g))
  }

  ghost predicate Disjoint(k: Path, t: Tree) {
    Apart(t) && PathApart(k) && Nodes(t) !! PathNodes(k)
  }

  // t sits at the end of path k, whose balances count with heights h and g.
  ghost predicate Placed(m: Links, k: Path, t: Tree, h: int, g: int) {
    (Disjoint(k, t) && Linked(m, t, PathNode(k)) && PathLinked(m, k, RootOf(t), h, g)) == true
  }

  // t sits at the end of path k, whose balances are those of a tree with height h there.
  ghost predicate PlacedAs(m: Links, k: Path, t: Tree, h: int) {
    Placed(m, k, t, h, HeightAbove(k, h))
  }

  ghost predicate Same(m: Links, m': Links, s: set<AvlNode>) {
    forall x :: x in s && x in m ==> x in m' && m'[x] == m[x]
  }

  lemma {:induction false} LinkedFrame(m: Links, m': Links, t: Tree, p: AvlNode?)
    requires Linked(m, t, p) && Same(m, m', Nodes(t))
    ensures Linked(m', t, p)
  {
    if t.Fork? {
      LinkedFrame(m, m', t.l, t.n);
      LinkedFrame(m, m', t.r, t.n);
    }
  }

  lemma {:induction false} PathLinkedFrame(m: Links, m': Links, k: Path, x: AvlNode?, h: int, g: int)
    requires PathLinked(m, k, x, h, g) && Same(m, m', PathNodes(k))
    ensures PathLinked(m', k, x, h, g)
  {
    match k
    case Top =>
    case LeftOf(n, r, up) =>
      LinkedFrame(m, m', r, n);
      PathLinkedFrame(m, m', up, n, g, HeightAbove(up, g));
    case RightOf(l, n, up) =>
      LinkedFrame(m, m', l, n);
      PathLinkedFrame(m, m', up, n, g, HeightAbove(up, g));
  }

  // The root of t got another parent.
  lemma {:induction false} Reparented(m: Links, m': Links, t: Tree, p: AvlNode?, q: AvlNode?)
    requires Apart(t) && Linked(m, t, p) && Same(m, m', Nodes(t) - {RootOf(t)})
    requires t.Fork? ==> t.n in m' && m'[t.n] == m[t.n].(parent := q)
    ensures Linked(m', t, q)
  {
    if t.Fork? {
      LinkedFrame(m, m', t.l, t.n);
      LinkedFrame(m, m', t.r, t.n);
    }
  }

  // The fields of the node above once y hangs at the end of the path.
  ghost function Rehung(m: Links, k: Path, y: AvlNode?): Fields
    requires !k.Top? && k.n in m
  {
    if k.LeftOf? then m[k.n].(left := y) else m[k.n].(right := y)
  }

  // The end of the path got another subtree root.
  lemma {:induction false} PathRehung(m: Links, m': Links, k: Path, x: AvlNode?, y: AvlNode?, h: int, g: int)
    requires PathApart(k) && PathLinked(m, k, x, h, g)
    requires !k.Top? ==> k.n in m' && m'[k.n] == Rehung(m, k, y)
    requires Same(m, m', PathNodes(k) - {PathNode(k)})
    ensures PathLinked(m', k, y, h, g)
  {
    match k
    case Top =>
    case LeftOf(n, r, up) =>
      LinkedFrame(m, m', r, n);
      PathLinkedFrame(m, m', up, n, g, HeightAbove(up, g));
    case RightOf(l, n, up) =>
      LinkedFrame(m, m', l, n);
      PathLinkedFrame(m, m', up, n, g, HeightAbove(up, g));
  }

  lemma {:induction false} InorderElems(t: Tree)
    ensures Elems(Inorder(t)) == Nodes(t)
  {
    if t.Fork? {
      InorderElems(t.l);
      InorderElems(t.r);
      forall x ensures x in Nodes(t) <==> x in Inorder(t) {
        assert x in Inorder(t) <==> x in Inorder(t.l) || x == t.n || x in Inorder(t.r);
        assert x in Elems(Inorder(t.l)) <==> x in Inorder(t.l);
        assert x in Elems(Inorder(t.r)) <==> x in Inorder(t.r);
      }
    }
  }

  lemma {:induction false} PlugInorder(k: Path, t: Tree)
    ensures Inorder(Plug(k, t)) == Before(k) + Inorder(t) + After(k)
  {
    match k
    case Top =>
    case LeftOf(n, r, up) => PlugInorder(up, Fork(t, n, r));
    case RightOf(l, n, up) => PlugInorder(up, Fork(l, n, t));
  }

  lemma {:induction false} PlugNodes(k: Path, t: Tree)
    ensures Nodes(Plug(k, t)) == PathNodes(k) + Nodes(t)
  {
    match k
    case Top =>
    case LeftOf(n, r, up) => PlugNodes(up, Fork(t, n, r));
    case RightOf(l, n, up) => PlugNodes(up, Fork(l, n, t));
  }

  lemma {:induction false} PlugBalanced(k: Path, t: Tree)
    ensures Balanced(t) && PathBalanced(k, Height(t)) ==> Balanced(Plug(k, t))
  {
    match k
    case Top =>
    case LeftOf(n, r, up) => PlugBalanced(up, Fork(t, n, r));
    case RightOf(l, n, up) => PlugBalanced(up, Fork(l, n, t));
  }

  lemma {:induction false} PlugApart(k: Path, t: Tree)
    requires Apart(t) && PathApart(k) && Nodes(t) !! PathNodes(k)
    ensures Apart(Plug(k, t)) && RootOf(Plug(k, t)) == RootAbove(k, RootOf(t))
  {
    match k
    case Top =>
    case LeftOf(n, r, up) => PlugApart(up, Fork(t, n, r));
    case RightOf(l, n, up) => PlugApart(up, Fork(l, n, t));
  }

  // With exact balances on the path, subtree and path make one tree.
  lemma {:induction false} PlugLinked(m: Links, k: Path, t: Tree)
    requires Linked(m, t, PathNode(k)) && PathLinked(m, k, RootOf(t), Height(t), HeightAbove(k, Height(t)))
    ensures Linked(m, Plug(k, t), null)
  {
    match k
    case Top =>
    case LeftOf(n, r, up) => PlugLinked(m, up, Fork(t, n, r));
    case RightOf(l, n, up) => PlugLinked(m, up, Fork(l, n, t));
  }

  // The two sides of a rotation have the same nodes in the same order.
  lemma {:induction false} RotationInorder(a: Tree, x: AvlNode, b: Tree, y: AvlNode, c: Tree)
    ensures Inorder(Fork(Fork(a, x, b), y, c)) == Inorder(Fork(a, x, Fork(b, y, c)))
  {
    assert Inorder(Fork(a, x, b)) == Inorder(a) + [x] + Inorder(b);
    assert Inorder(Fork(b, y, c)) == Inorder(b) + [y] + Inorder(c);
  }

  lemma {:induction false} RotationNodes(a: Tree, x: AvlNode, b: Tree, y: AvlNode, c: Tree)
    ensures Nodes(Fork(Fork(a, x, b), y, c)) == Nodes(a) + {x} + Nodes(b) + {y} + Nodes(c)
    ensures Nodes(Fork(a, x, Fork(b, y, c))) == Nodes(a) + {x} + Nodes(b) + {y} + Nodes(c)
  {
    assert Nodes(Fork(a, x, b)) == Nodes(a) + {x} + Nodes(b);
    assert Nodes(Fork(b, y, c)) == Nodes(b) + {y} + Nodes(c);
  }

  ghost predicate FiveApart(a: Tree, x: AvlNode, b: Tree, y: AvlNode, c: Tree) {
    && Apart(a) && Apart(b) && Apart(c)
    && x != y && {x, y} !! Nodes(a) && {x, y} !! Nodes(b) && {x, y} !! Nodes(c)
    && Nodes(a) !! Nodes(b) && Nodes(a) !! Nodes(c) && Nodes(b) !! Nodes(c)
  }

  lemma {:induction false} RotationApart(a: Tree, x: AvlNode, b: Tree, y: AvlNode, c: Tree)
    ensures Apart(Fork(Fork(a, x, b), y, c)) <==> FiveApart(a, x, b, y, c)
    ensures Apart(Fork(a, x, Fork(b, y, c))) <==> FiveApart(a, x, b, y, c)
  {
    assert Nodes(Fork(a, x, b)) == Nodes(a) + {x} + Nodes(b);
    assert Nodes(Fork(b, y, c)) == Nodes(b) + {y} + Nodes(c);
  }

  lemma {:induction false} DisjointUp(k: Path, t: Tree)
    requires !k.Top?
    ensures Disjoint(k, t) <==> Disjoint(k.up, Raise(k, t))
  {
    assert Nodes(Raise(k, t)) == Nodes(t) + {k.n} + Nodes(Sibling(k));
  }

  lemma {:induction false} PlacedChild(m: Links, k: Path, t: Tree, h: int, g: int)
    requires Placed(m, k, t, h, g) && !k.Top?
    ensures k.n in m && (if k.LeftOf? then m[k.n].left else m[k.n].right) == RootOf(t)
  {}

  // Moving the end of the path one node up changes nothing.
  lemma {:induction false} StepUp(m: Links, k: Path, t: Tree, g: int)
    requires !k.Top?
    ensures Placed(m, k, t, Height(t), g) <==> PlacedAs(m, k.up, Raise(k, t), g)
  {
    hide Disjoint, Height;
    DisjointUp(k, t);
  }

  // The last node of the path gets the balance that goes with the present height of t.
  lemma {:induction false} Rebalanced(m: Links, m': Links, k: Path, t: Tree, h: int, g: int)
    requires !k.Top? && Placed(m, k, t, h, g)
    requires k.n in m' && m'[k.n] == m[k.n].(balance := m[k.n].balance + if k.LeftOf? then h - Height(t) else Height(t) - h)
    requires Same(m, m', Nodes(t) + PathNodes(k) - {k.n})
    ensures Placed(m', k, t, Height(t), g)
  {
    LinkedFrame(m, m', t, k.n);
    LinkedFrame(m, m', Sibling(k), k.n);
    PathLinkedFrame(m, m', k.up, k.n, g, HeightAbove(k.up, g));
  }

  // t is the whole tree below root.
  ghost predicate Whole(m: Links, t: Tree, root: AvlNode?) {
    (Apart(t) && Linked(m, t, null) && Balanced(t) && root == RootOf(t)) == true
  }

  // t is balanced and sits at the end of path k, in which a subtree of height h would be balanced.
  ghost predicate Fits(m: Links, k: Path, t: Tree, h: int) {
    (PlacedAs(m, k, t, h) && Balanced(t) && PathBalanced(k, h)) == true
  }

  // The same, except that the two sides of t may differ in height by more than one.
  ghost predicate Leans(m: Links, k: Path, t: Tree, h: int) {
    (t.Fork? && PlacedAs(m, k, t, h) && Balanced(t.l) && Balanced(t.r) && PathBalanced(k, h)) == true
  }

  lemma {:induction false} LeansFields(m: Links, k: Path, t: Tree, h: int)
    requires Leans(m, k, t, h)
    ensures t.n in m && m[t.n].left == RootOf(t.l) && m[t.n].right == RootOf(t.r)
    ensures t.l.Fork? ==>
              && t.l.n in m && -1 <= Height(t.l.r) - Height(t.l.l) <= 1
              && m[t.l.n] == Fields(t.n, RootOf(t.l.l), RootOf(t.l.r), Height(t.l.r) - Height(t.l.l))
    ensures t.r.Fork? ==>
              && t.r.n in m && -1 <= Height(t.r.r) - Height(t.r.l) <= 1
              && m[t.r.n] == Fields(t.n, RootOf(t.r.l), RootOf(t.r.r), Height(t.r.r) - Height(t.r.l))
    ensures t.l.Fork? <==> Height(t.l) > 0
    ensures t.r.Fork? <==> Height(t.r) > 0
  {
    assert Linked(m, t.l, t.n) && Linked(m, t.r, t.n);
  }

  lemma {:induction false} LeansFits(m: Links, k: Path, t: Tree, h: int)
    requires t.Fork? && -1 <= Height(t.r) - Height(t.l) <= 1
    ensures Leans(m, k, t, h) <==> Fits(m, k, t, h)
  {}

  // A subtree of the right height makes a whole tree.
  lemma {:induction false} Close(m: Links, k: Path, t: Tree, h: int)
    requires Fits(m, k, t, h) && (k.Top? || h == Height(t))
    ensures Whole(m, Plug(k, t), RootAbove(k, RootOf(t)))
  {
    PlugApart(k, t);
    PlugLinked(m, k, t);
    PlugBalanced(k, t);
  }

  lemma {:induction false} PlugSameOrder(k: Path, t: Tree, t': Tree)
    requires Inorder(t) == Inorder(t')
    ensures Inorder(Plug(k, t)) == Inorder(Plug(k, t'))
  {
    PlugInorder(k, t);
    PlugInorder(k, t');
  }

  // How things look one node further up when t, at the end of a balanced path, has another height than h.
  lemma {:induction false} RaiseLeans(m: Links, k: Path, t: Tree, h: int)
    requires !k.Top? && Balanced(t) && PathBalanced(k, h)
    requires PlacedAs(m, k.up, Raise(k, t), HeightAbove(k, h))
    ensures Leans(m, k.up, Raise(k, t), HeightAbove(k, h))
    ensures Plug(k.up, Raise(k, t)) == Plug(k, t)
  {}

  lemma {:induction false} RaiseHeights(k: Path, t: Tree, h: int)
    requires !k.Top? && PathBalanced(k, h)
    ensures var i, j := Height(t), Height(Sibling(k));
            && Height(Raise(k, t)) == 1 + (if i > j then i else j)
            && HeightAbove(k, h) == 1 + (if h > j then h else j)
            && -1 <= h - j <= 1
  {}

  // A subtree v that stands where t and its parent stood, at the height they had when t had height h.
  lemma {:induction false} CloseAbove(m: Links, k: Path, t: Tree, h: int, v: Tree)
    requires !k.Top? && Fits(m, k.up, v, HeightAbove(k, h)) && Height(v) == HeightAbove(k, h)
    requires Inorder(v) == Inorder(Raise(k, t))
    ensures Whole(m, Plug(k.up, v), RootAbove(k.up, RootOf(v)))
    ensures Inorder(Plug(k.up, v)) == Inorder(Plug(k, t))
  {
    Close(m, k.up, v, HeightAbove(k, h));
    PlugSameOrder(k.up, Raise(k, t), v);
  }

  // Any node of a tree is the root of a subtree at the end of some path.
  lemma {:induction false} FocusOn(m: Links, k: Path, t: Tree, x: AvlNode) returns (k': Path, t': Tree)
    requires Fits(m, k, t, Height(t)) && x in Nodes(t)
    ensures Plug(k', t') == Plug(k, t) && t'.Fork? && t'.n == x && Fits(m, k', t', Height(t'))
    ensures RootAbove(k', x) == RootAbove(k, RootOf(t))
    decreases t
  {
    hide Placed, PathBalanced;
    if x == t.n {
      k', t' := k, t;
    } else if x in Nodes(t.l) {
      StepDown(m, LeftOf(t.n, t.r, k), t.l);
      k', t' := FocusOn(m, LeftOf(t.n, t.r, k), t.l, x);
    } else {
      StepDown(m, RightOf(t.l, t.n, k), t.r);
      k', t' := FocusOn(m, RightOf(t.l, t.n, k), t.r, x);
    }
  }

  lemma {:induction false} StepDown(m: Links, k: Path, t: Tree)
    requires !k.Top? && Fits(m, k.up, Raise(k, t), Height(Raise(k, t)))
    ensures Fits(m, k, t, Height(t))
  {
    StepUp(m, k, t, Height(Raise(k, t)));
    hide Placed;
  }

  lemma {:induction false} LinkedRoot(m: Links, t: Tree, p: AvlNode?)
    requires Linked(m, t, p)
    ensures t.Fork? ==> t.n in m && m[t.n].parent == p
  {}

  // What a right rotation at node finds: the node itself, its left child, that child's right child and the
  // node above are different objects.
  ghost predicate RightRotatable(m: Links, k: Path, node: AvlNode, left: AvlNode) {
    && node in m && left in m && m[node].left == left && node != left && m[node].parent == PathNode(k)
    && (var mid := m[left].right; mid != null ==> mid in m && mid != node && mid != left && mid != PathNode(k))
    && (k.Top? || (k.n in m && k.n != node && k.n != left && (k.LeftOf? <==> m[k.n].left == node)))
  }

  // What a right rotation changes: left takes the place of node, node becomes its right child and takes over
  // left's right child.
  ghost predicate RightTurned(m: Links, m': Links, k: Path, node: AvlNode, left: AvlNode)
    requires RightRotatable(m, k, node, left)
  {
    var mid := m[left].right;
    var nb := m[node].balance + 1 - Min(m[left].balance, 0);
    && m'.Keys == m.Keys
    && m'[node] == Fields(left, mid, m[node].right, nb)
    && m'[left] == Fields(m[node].parent, m[left].left, node, m[left].balance + 1 + Max(nb, 0))
    && (mid != null ==> m'[mid] == m[mid].(parent := node))
    && (!k.Top? ==> m'[k.n] == Rehung(m, k, left))
    && (forall x :: x in m && x != node && x != left && x != mid && x != PathNode(k) ==> m'[x] == m[x])
  }

  lemma {:induction false} RightRotation(m: Links, k: Path, a: Tree, x: AvlNode, b: Tree, y: AvlNode, c: Tree, h: int, g: int)
    requires Placed(m, k, Fork(Fork(a, x, b), y, c), h, g)
    ensures RightRotatable(m, k, y, x)
  {
    assert Linked(m, Fork(a, x, b), y) && Linked(m, b, x);
    RotationNodes(a, x, b, y, c);
    RotationApart(a, x, b, y, c);
    assert b.Fork? ==> RootOf(b) in Nodes(b);
    assert !k.Top? ==> k.n in PathNodes(k);
    if k.RightOf? {
      assert k.l.Fork? ==> RootOf(k.l) in Nodes(k.l);
    }
  }

  // The balance updates of the two rotations, for any three subtree heights.
  lemma {:induction false} TurnedBalances(a: int, b: int, c: int)
    ensures var x, y := b - a, c - 1 - Max(a, b);
            y + 1 - Min(x, 0) == c - b && x + 1 + Max(c - b, 0) == 1 + Max(b, c) - a
    ensures var y, x := c - b, 1 + Max(b, c) - a;
            x - (1 + Max(y, 0)) == b - a && y - (1 - Min(b - a, 0)) == c - 1 - Max(a, b)
  {}

  // The stored balances stay exact, whatever they are.
  lemma {:induction false} RightRotationFields(m: Links, m': Links, k: Path, a: Tree, x: AvlNode, b: Tree, y: AvlNode, c: Tree)
    requires Linked(m, Fork(Fork(a, x, b), y, c), PathNode(k))
    requires RightRotatable(m, k, y, x) && RightTurned(m, m', k, y, x)
    ensures x in m' && y in m'
    ensures m'[y] == Fields(x, RootOf(b), RootOf(c), Height(c) - Height(b))
    ensures m'[x] == Fields(PathNode(k), RootOf(a), y, 1 + Max(Height(b), Height(c)) - Height(a))
  {
    assert Linked(m, Fork(a, x, b), y);
    assert m[y] == Fields(PathNode(k), x, RootOf(c), Height(c) - Height(Fork(a, x, b)));
    assert m[x] == Fields(y, RootOf(a), RootOf(b), Height(b) - Height(a));
    TurnedBalances(Height(a), Height(b), Height(c));
  }

  lemma {:induction false} RightRotationPieces(m: Links, k: Path, a: Tree, x: AvlNode, b: Tree, y: AvlNode, c: Tree, h: int, g: int)
    requires Placed(m, k, Fork(Fork(a, x, b), y, c), h, g)
    ensures Linked(m, a, x) && Linked(m, b, x) && Linked(m, c, y) && PathLinked(m, k, y, h, g)
    ensures x in m && y in m && m[x].right == RootOf(b)
    ensures FiveApart(a, x, b, y, c) && PathApart(k) && Disjoint(k, Fork(a, x, Fork(b, y, c)))
    ensures Nodes(a) + {x} + Nodes(b) + {y} + Nodes(c) !! PathNodes(k)
    ensures b.Fork? ==> RootOf(b) in Nodes(b)
    ensures !k.Top? ==> k.n in PathNodes(k)
  {
    assert Linked(m, Fork(a, x, b), y) && Linked(m, a, x) && Linked(m, b, x);
    RotationNodes(a, x, b, y, c);
    RotationApart(a, x, b, y, c);
  }

  // The parts that only move.
  lemma {:induction false} RightRotationParts(m: Links, m': Links, k: Path, a: Tree, x: AvlNode, b: Tree, y: AvlNode, c: Tree, h: int, g: int)
    requires Placed(m, k, Fork(Fork(a, x, b), y, c), h, g)
    requires RightRotatable(m, k, y, x) && RightTurned(m, m', k, y, x)
    ensures Linked(m', a, x) && Linked(m', b, y) && Linked(m', c, y)
    ensures PathLinked(m', k, x, h, g)
    ensures Disjoint(k, Fork(a, x, Fork(b, y, c)))
  {
    hide Placed, Disjoint, PathLinked, Nodes, PathNodes, Apart, PathApart, Height, Max, Min;
    RightRotationPieces(m, k, a, x, b, y, c, h, g);
    LinkedRoot(m, b, x);
    LinkedFrame(m, m', a, x);
    LinkedFrame(m, m', c, y);
    Reparented(m, m', b, x, y);
    PathRehung(m, m', k, y, x, h, g);
  }

  // ... and what it achieves.
  lemma {:induction false} RightRotationPlaced(m: Links, m': Links, k: Path, a: Tree, x: AvlNode, b: Tree, y: AvlNode, c: Tree, h: int, g: int)
    requires Placed(m, k, Fork(Fork(a, x, b), y, c), h, g)
    requires RightRotatable(m, k, y, x) && RightTurned(m, m', k, y, x)
    ensures Placed(m', k, Fork(a, x, Fork(b, y, c)), h, g)
  {
    RightRotationParts(m, m', k, a, x, b, y, c, h, g);
    RightRotationFields(m, m', k, a, x, b, y, c);
    hide RightTurned, RightRotatable, Disjoint, PathLinked;
    assert Linked(m', Fork(b, y, c), x);
  }

  ghost predicate LeftRotatable(m: Links, k: Path, node: AvlNode, right: AvlNode) {
    && node in m && right in m && m[node].right == right && node != right && m[node].parent == PathNode(k)
    && (var mid := m[right].left; mid != null ==> mid in m && mid != node && mid != right && mid != PathNode(k))
    && (k.Top? || (k.n in m && k.n != node && k.n != right && (k.LeftOf? <==> m[k.n].left == node)))
  }

  ghost predicate LeftTurned(m: Links, m': Links, k: Path, node: AvlNode, right: AvlNode)
    requires LeftRotatable(m, k, node, right)
  {
    var mid := m[right].left;
    var nb := m[node].balance - (1 + Max(m[right].balance, 0));
    && m'.Keys == m.Keys
    && m'[node] == Fields(right, m[node].left, mid, nb)
    && m'[right] == Fields(m[node].parent, node, m[right].right, m[right].balance - (1 - Min(nb, 0)))
    && (mid != null ==> m'[mid] == m[mid].(parent := node))
    && (!k.Top? ==> m'[k.n] == Rehung(m, k, right))
    && (forall x :: x in m && x != node && x != right && x != mid && x != PathNode(k) ==> m'[x] == m[x])
  }

  lemma {:induction false} LeftRotation(m: Links, k: Path, a: Tree, x: AvlNode, b: Tree, y: AvlNode, c: Tree, h: int, g: int)
    requires Placed(m, k, Fork(a, x, Fork(b, y, c)), h, g)
    ensures LeftRotatable(m, k, x, y)
  {
    assert Linked(m, Fork(b, y, c), x) && Linked(m, b, y);
    RotationNodes(a, x, b, y, c);
    RotationApart(a, x, b, y, c);
    assert b.Fork? ==> RootOf(b) in Nodes(b);
    assert !k.Top? ==> k.n in PathNodes(k);
    if k.RightOf? {
      assert k.l.Fork? ==> RootOf(k.l) in Nodes(k.l);
    }
  }

  lemma {:induction false} LeftRotationFields(m: Links, m': Links, k: Path, a: Tree, x: AvlNode, b: Tree, y: AvlNode, c: Tree)
    requires Linked(m, Fork(a, x, Fork(b, y, c)), PathNode(k))
    requires LeftRotatable(m, k, x, y) && LeftTurned(m, m', k, x, y)
    ensures x in m' && y in m'
    ensures m'[x] == Fields(y, RootOf(a), RootOf(b), Height(b) - Height(a))
    ensures m'[y] == Fields(PathNode(k), x, RootOf(c), Height(c) - 1 - Max(Height(a), Height(b)))
  {
    assert Linked(m, Fork(b, y, c), x);
    assert m[x] == Fields(PathNode(k), RootOf(a), y, Height(Fork(b, y, c)) - Height(a));
    assert m[y] == Fields(x, RootOf(b), RootOf(c), Height(c) - Height(b));
    TurnedBalances(Height(a), Height(b), Height(c));
  }

  lemma {:induction false} LeftRotationPieces(m: Links, k: Path, a: Tree, x: AvlNode, b: Tree, y: AvlNode, c: Tree, h: int, g: int)
    requires Placed(m, k, Fork(a, x, Fork(b, y, c)), h, g)
    ensures Linked(m, a, x) && Linked(m, b, y) && Linked(m, c, y) && PathLinked(m, k, x, h, g)
    ensures x in m && y in m && m[y].left == RootOf(b)
    ensures FiveApart(a, x, b, y, c) && PathApart(k) && Disjoint(k, Fork(Fork(a, x, b), y, c))
    ensures Nodes(a) + {x} + Nodes(b) + {y} + Nodes(c) !! PathNodes(k)
    ensures b.Fork? ==> RootOf(b) in Nodes(b)
    ensures !k.Top? ==> k.n in PathNodes(k)
  {
    assert Linked(m, Fork(b, y, c), x) && Linked(m, b, y) && Linked(m, c, y);
    RotationNodes(a, x, b, y, c);
    RotationApart(a, x, b, y, c);
  }

  // The parts that only move.
  lemma {:induction false} LeftRotationParts(m: Links, m': Links, k: Path, a: Tree, x: AvlNode, b: Tree, y: AvlNode, c: Tree, h: int, g: int)
    requires Placed(m, k, Fork(a, x, Fork(b, y, c)), h, g)
    requires LeftRotatable(m, k, x, y) && LeftTurned(m, m', k, x, y)
    ensures Linked(m', a, x) && Linked(m', b, x) && Linked(m', c, y)
    ensures PathLinked(m', k, y, h, g)
    ensures Disjoint(k, Fork(Fork(a, x, b), y, c))
  {
    hide Placed, Disjoint, PathLinked, Nodes, PathNodes, Apart, PathApart, Height, Max, Min;
    LeftRotationPieces(m, k, a, x, b, y, c, h, g);
    LinkedRoot(m, b, y);
    LinkedFrame(m, m', a, x);
    LinkedFrame(m, m', c, y);
    Reparented(m, m', b, y, x);
    PathRehung(m, m', k, x, y, h, g);
  }

  // ... and what it achieves.
  lemma {:induction false} LeftRotationPlaced(m: Links, m': Links, k: Path, a: Tree, x: AvlNode, b: Tree, y: AvlNode, c: Tree, h: int, g: int)
    requires Placed(m, k, Fork(a, x, Fork(b, y, c)), h, g)
    requires LeftRotatable(m, k, x, y) && LeftTurned(m, m', k, x, y)
    ensures Placed(m', k, Fork(Fork(a, x, b), y, c), h, g)
  {
    LeftRotationParts(m, m', k, a, x, b, y, c, h, g);
    LeftRotationFields(m, m', k, a, x, b, y, c);
    hide LeftTurned, LeftRotatable, Disjoint, PathLinked;
    assert Linked(m', Fork(a, x, b), y);
  }

  // --- Replacing the subtree at the end of a path ---

  // v, made of nodes of t, hangs where t was.
  lemma {:induction false} Rehang(m: Links, m': Links, k: Path, t: Tree, v: Tree, h: int)
    requires Fits(m, k, t, h)
    requires Linked(m', v, PathNode(k)) && Apart(v) && Balanced(v) && Nodes(v) <= Nodes(t)
    requires !k.Top? ==> k.n in m && k.n in m' && m'[k.n] == Rehung(m, k, RootOf(v))
    requires Same(m, m', PathNodes(k) - {PathNode(k)})
    ensures Fits(m', k, v, h)
  {
    hide PathLinked, Linked, Rehung, Balanced, PathBalanced, PathApart, Apart;
    PathRehung(m, m', k, RootOf(t), RootOf(v), h, HeightAbove(k, h));
  }

  // The only child of the root of t took its place.
  lemma {:induction false} UnhookedInner(m: Links, m': Links, k: Path, t: Tree, v: Tree)
    requires Fits(m, k, t, Height(t)) && t.Fork? && v.Fork?
    requires (t.l.Leaf? && v == t.r) || (t.r.Leaf? && v == t.l)
    requires v.n in m && v.n in m' && m'[v.n] == m[v.n].(parent := PathNode(k))
    requires !k.Top? ==> k.n in m && k.n in m' && m'[k.n] == Rehung(m, k, v.n)
    requires Same(m, m', Nodes(t) + PathNodes(k) - {v.n, PathNode(k)})
    ensures Fits(m', k, v, Height(v) + 1)
  {
    assert v.n in Nodes(v) && Nodes(v) <= Nodes(t);
    assert !k.Top? ==> k.n in PathNodes(k);
    Reparented(m, m', v, t.n, PathNode(k));
    hide Linked, PathLinked, Nodes, PathNodes;
    Rehang(m, m', k, t, v, Height(t));
  }

  // x, a node from outside, stands where the root of t was, with its fields.
  lemma {:induction false} TakenOver(m: Links, m': Links, k: Path, t: Tree, x: AvlNode)
    requires Fits(m, k, t, Height(t)) && t.Fork? && x !in Nodes(t) && x !in PathNodes(k)
    requires t.n in m && x in m' && m'[x] == m[t.n]
    requires t.l.Fork? ==> t.l.n in m && t.l.n in m' && m'[t.l.n] == m[t.l.n].(parent := x)
    requires t.r.Fork? ==> t.r.n in m && t.r.n in m' && m'[t.r.n] == m[t.r.n].(parent := x)
    requires !k.Top? ==> k.n in m && k.n in m' && m'[k.n] == Rehung(m, k, x)
    requires Same(m, m', PathNodes(k) - {PathNode(k)})
    requires Same(m, m', Nodes(t) - {t.n, RootOf(t.l), RootOf(t.r)})
    ensures Fits(m', k, Fork(t.l, x, t.r), Height(t))
  {
    var v := Fork(t.l, x, t.r);
    assert Height(v) == Height(t);
    assert t.l.Fork? ==> t.l.n in Nodes(t.l);
    assert t.r.Fork? ==> t.r.n in Nodes(t.r);
    Reparented(m, m', t.l, t.n, x);
    Reparented(m, m', t.r, t.n, x);
    PathRehung(m, m', k, t.n, x, Height(t), HeightAbove(k, Height(t)));
  }

  // What the fields around a subtree say.
  lemma {:induction false} FitsFields(m: Links, k: Path, t: Tree, h: int)
    requires Fits(m, k, t, h)
    ensures t.Fork? ==>
              && t.n in m && m[t.n] == Fields(PathNode(k), RootOf(t.l), RootOf(t.r), Height(t.r) - Height(t.l))
              && (t.l.Fork? ==> t.l.n in m && m[t.l.n].parent == t.n && t.l.n != t.n)
              && (t.r.Fork? ==> t.r.n in m && m[t.r.n].parent == t.n && t.r.n != t.n)
              && (t.l.Fork? && t.r.Fork? ==> t.l.n != t.r.n)
    ensures !k.Top? ==> k.n in m && (if k.LeftOf? then m[k.n].left else m[k.n].right) == RootOf(t)
    ensures !k.Top? && t.Fork? ==> (k.LeftOf? <==> m[k.n].left == t.n) && k.n != t.n
    ensures !k.Top? && t.Fork? ==> RootOf(t.l) != k.n && RootOf(t.r) != k.n
  {
    if t.Fork? {
      assert Linked(m, t.l, t.n) && Linked(m, t.r, t.n);
      assert t.l.Fork? ==> t.l.n in Nodes(t.l);
      assert t.r.Fork? ==> t.r.n in Nodes(t.r);
    }
    if k.RightOf? {
      assert k.l.Fork? ==> k.l.n in Nodes(k.l);
    }
  }

  // Which of the nodes in and around a subtree are different.
  lemma {:induction false} FitsApart(m: Links, k: Path, t: Tree, h: int)
    requires Fits(m, k, t, h) && t.Fork?
    ensures t.n in Nodes(t) && Nodes(t) !! PathNodes(k) && (!k.Top? ==> k.n in PathNodes(k))
    ensures t.l.Fork? ==> t.l.n in Nodes(t)
    ensures t.r.Fork? ==> t.r.n in Nodes(t)
  {
    assert t.l.Fork? ==> t.l.n in Nodes(t.l);
    assert t.r.Fork? ==> t.r.n in Nodes(t.r);
  }

  lemma {:induction false} ApartDistinct(t: Tree)
    requires Apart(t)
    ensures Distinct(Inorder(t))
  {
    if t.Fork? {
      ApartDistinct(t.l);
      ApartDistinct(t.r);
      InorderElems(t.l);
      InorderElems(t.r);
      DistinctConcat(Inorder(t.l), t.n, Inorder(t.r));
    }
  }

  lemma {:induction false} DistinctConcat(a: seq<AvlNode>, x: AvlNode, b: seq<AvlNode>)
    requires Distinct(a) && Distinct(b) && x !in Elems(a) && x !in Elems(b) && Elems(a) !! Elems(b)
    ensures Distinct(a + [x] + b)
  {
    var s := a + [x] + b;
    forall i, j | 0 <= i < j < |s| ensures s[i] != s[j] {
      assert i < |a| ==> s[i] in Elems(a);
      assert j < |a| ==> s[j] in Elems(a);
      assert i > |a| ==> s[i] in Elems(b);
      assert j > |a| ==> s[j] in Elems(b);
    }
  }

  // One place of x in a sequence without duplicates.
  lemma {:induction false} UniqueSplit(a: seq<AvlNode>, b: seq<AvlNode>, a': seq<AvlNode>, b': seq<AvlNode>, x: AvlNode)
    requires a + [x] + b == a' + [x] + b' && Distinct(a + [x] + b)
    ensures a == a' && b == b'
  {
    var s := a + [x] + b;
    assert s[|a|] == x && s[|a'|] == x;
    assert a == s[..|a|] && a' == s[..|a'|] && b == s[|a| + 1..] && b' == s[|a'| + 1..];
  }

  lemma {:induction false} WholeFits(m: Links, t: Tree, root: AvlNode?)
    requires Whole(m, t, root)
    ensures Fits(m, Top, t, Height(t)) && Distinct(Inorder(t)) && Elems(Inorder(t)) == Nodes(t)
  {
    ApartDistinct(t);
    InorderElems(t);
  }

  // Taking min, the first node after x, out of a + [x] + b ...
  lemma {:induction false} SuccessorOut(a: seq<AvlNode>, x: AvlNode, b: seq<AvlNode>, min: AvlNode, a': seq<AvlNode>, b': seq<AvlNode>)
    requires a + [x] + b == a' + [min] + b' && Distinct(a + [x] + b) && b != [] && b[0] == min
    ensures a' + b' == a + [x] + b[1..]
    ensures x in a' + b' && min !in a' + b'
  {
    var s := a + [x] + b;
    assert s == (a + [x]) + [min] + b[1..];
    UniqueSplit(a + [x], b[1..], a', b', min);
    assert (a' + b')[|a|] == x;
    forall i | 0 <= i < |a' + b'| ensures (a' + b')[i] != min {
      assert s[|a'|] == min && (a' + b')[i] == s[if i < |a'| then i else i + 1];
    }
  }

  // ... and putting it where x is leaves everything but x.
  lemma {:induction false} SuccessorIn(a: seq<AvlNode>, x: AvlNode, b: seq<AvlNode>, min: AvlNode, a': seq<AvlNode>, b': seq<AvlNode>)
    requires b != [] && b[0] == min
    requires a' + [x] + b' == a + [x] + b[1..] && Distinct(a' + [x] + b')
    ensures a' + [min] + b' == a + b
  {
    UniqueSplit(a', b', a, b[1..], x);
  }

  lemma {:induction false} WholeRoot(m: Links, t: Tree, root: AvlNode?)
    requires Whole(m, t, root)
    ensures root == RootAbove(Top, RootOf(t)) && Plug(Top, t) == t
  {}

  lemma {:induction false} SameHeight(t: Tree, x: AvlNode)
    requires t.Fork?
    ensures Height(Fork(t.l, x, t.r)) == Height(t)
  {}

  lemma {:induction false} FitsChildren(m: Links, k: Path, t: Tree, h: int)
    requires Fits(m, k, t, h) && t.Fork?
    ensures Linked(m, t.l, t.n) && Linked(m, t.r, t.n) && Nodes(t.l) <= Nodes(t) && Nodes(t.r) <= Nodes(t)
  {}

  // The walk of the whole tree before and after the root of t.
  ghost function LeftPart(k: Path, t: Tree): seq<AvlNode>
    requires t.Fork?
  {
    Before(k) + Inorder(t.l)
  }

  ghost function RightPart(k: Path, t: Tree): seq<AvlNode>
    requires t.Fork?
  {
    Inorder(t.r) + After(k)
  }

  lemma {:induction false} PlugParts(k: Path, t: Tree)
    requires t.Fork?
    ensures Inorder(Plug(k, t)) == LeftPart(k, t) + [t.n] + RightPart(k, t)
  {
    PlugInorder(k, t);
    assert Before(k) + (Inorder(t.l) + [t.n] + Inorder(t.r)) + After(k) == Before(k) + Inorder(t.l) + [t.n] + (Inorder(t.r) + After(k));
  }

  lemma {:induction false} SameParts(k: Path, t: Tree, x: AvlNode)
    requires t.Fork?
    ensures LeftPart(k, Fork(t.l, x, t.r)) == LeftPart(k, t) && RightPart(k, Fork(t.l, x, t.r)) == RightPart(k, t)
  {}

  // What is left when the root of t goes and v, all of its one side, stays.
  lemma {:induction false} UnhookedOrder(k: Path, t: Tree, v: Tree)
    requires t.Fork? && ((t.l.Leaf? && v == t.r) || (t.r.Leaf? && v == t.l))
    ensures Inorder(Plug(k, v)) == LeftPart(k, t) + RightPart(k, t)
  {
    PlugInorder(k, v);
    assert Before(k) + Inorder(v) + After(k) == (Before(k) + Inorder(t.l)) + (Inorder(t.r) + After(k));
  }

  // The least node on the right of t comes next in the walk.
  lemma {:induction false} SuccessorFocus(m: Links, k: Path, t: Tree, km: Path, tm: Tree)
    requires Fits(m, k, t, Height(t)) && t.Fork? && Inorder(t.r) != []
    requires tm.Fork? && tm.n == Inorder(t.r)[0] && Plug(km, tm) == Plug(k, t)
    ensures RightPart(k, t) != [] && RightPart(k, t)[0] == tm.n
    ensures var s := LeftPart(km, tm) + RightPart(km, tm);
            s == LeftPart(k, t) + [t.n] + RightPart(k, t)[1..] && tm.n !in s
  {
    PlugParts(k, t);
    PlugParts(km, tm);
    Close(m, k, t, Height(t));
    WholeFits(m, Plug(k, t), RootAbove(k, RootOf(t)));
    assert RightPart(k, t)[0] == tm.n;
    hide Fits, Whole, Plug, Height, Distinct, LeftPart, RightPart;
    SuccessorOut(LeftPart(k, t), t.n, RightPart(k, t), tm.n, LeftPart(km, tm), RightPart(km, tm));
  }

  lemma {:induction false} StandInOrder(k: Path, t: Tree, min: AvlNode, a: seq<AvlNode>, b: seq<AvlNode>)
    requires t.Fork? && b != [] && b[0] == min
    requires Inorder(Plug(k, t)) == a + [t.n] + b[1..] && Distinct(Inorder(Plug(k, t)))
    ensures Inorder(Plug(k, Fork(t.l, min, t.r))) == a + b
  {
    hide Plug, Distinct, Inorder, Before, After;
    var v := Fork(t.l, min, t.r);
    PlugParts(k, t);
    PlugParts(k, v);
    assert LeftPart(k, v) == LeftPart(k, t) && RightPart(k, v) == RightPart(k, t);
    SuccessorIn(a, t.n, b, min, LeftPart(k, t), RightPart(k, t));
  }

  lemma {:induction false} WholeLinked(m: Links, t: Tree, root: AvlNode?)
    requires Whole(m, t, root)
    ensures Linked(m, t, null) && root == RootOf(t) && Balanced(t)
  {}

  lemma {:induction false} WholeFrame(m: Links, m': Links, t: Tree, root: AvlNode?)
    requires Whole(m, t, root) && Same(m, m', Nodes(t))
    ensures Whole(m', t, root)
  {
    LinkedFrame(m, m', t, null);
  }

  // A new leaf x below t.n, where there was nothing on that side; the balance of t.n already shows it.
  lemma {:induction false} HungLeft(m: Links, m': Links, k: Path, t: Tree, x: AvlNode)
    requires Fits(m, k, t, Height(t)) && t.Fork? && t.l.Leaf? && x !in Nodes(t) && x !in PathNodes(k)
    requires Height(t.r) <= 1
    requires x in m' && m'[x] == Fields(t.n, null, null, 0)
    requires t.n in m && t.n in m' && m'[t.n] == m[t.n].(left := x, balance := Height(t.r) - 1)
    requires Same(m, m', Nodes(t) + PathNodes(k) - {t.n})
    ensures Fits(m', k, Fork(Fork(Leaf, x, Leaf), t.n, t.r), Height(t))
  {
    var f := Fork(Leaf, x, Leaf);
    LinkedFrame(m, m', t.r, t.n);
    PathLinkedFrame(m, m', k, t.n, Height(t), HeightAbove(k, Height(t)));
    assert Height(f) == 1 && Nodes(f) == {x} && Linked(m', f, t.n) && Apart(f) && Balanced(f);
    assert Nodes(Fork(f, t.n, t.r)) == Nodes(t) + {x};
  }

  lemma {:induction false} HungRight(m: Links, m': Links, k: Path, t: Tree, x: AvlNode)
    requires Fits(m, k, t, Height(t)) && t.Fork? && t.r.Leaf? && x !in Nodes(t) && x !in PathNodes(k)
    requires Height(t.l) <= 1
    requires x in m' && m'[x] == Fields(t.n, null, null, 0)
    requires t.n in m && t.n in m' && m'[t.n] == m[t.n].(right := x, balance := 1 - Height(t.l))
    requires Same(m, m', Nodes(t) + PathNodes(k) - {t.n})
    ensures Fits(m', k, Fork(t.l, t.n, Fork(Leaf, x, Leaf)), Height(t))
  {
    var f := Fork(Leaf, x, Leaf);
    LinkedFrame(m, m', t.l, t.n);
    PathLinkedFrame(m, m', k, t.n, Height(t), HeightAbove(k, Height(t)));
    assert Height(f) == 1 && Nodes(f) == {x} && Linked(m', f, t.n) && Apart(f) && Balanced(f);
    assert Nodes(Fork(t.l, t.n, f)) == Nodes(t) + {x};
  }

  // Heights and order after hanging a leaf.
  lemma {:induction false} LeafHeight(t: Tree, x: AvlNode)
    requires t.Fork? && Balanced(t)
    ensures Height(Fork(Leaf, x, Leaf)) == 1
    ensures t.l.Leaf? ==>
              0 <= Height(t.r) <= 1 && Height(Fork(Fork(Leaf, x, Leaf), t.n, t.r)) == 2 && Height(t) == 1 + Height(t.r)
    ensures t.r.Leaf? ==>
              0 <= Height(t.l) <= 1 && Height(Fork(t.l, t.n, Fork(Leaf, x, Leaf))) == 2 && Height(t) == 1 + Height(t.l)
  {
    assert Height(Fork(Leaf, x, Leaf)) == 1;
  }

  lemma {:induction false} LeafOrder(k: Path, t: Tree, x: AvlNode)
    requires t.Fork?
    ensures t.l.Leaf? ==> Inorder(Plug(k, Fork(Fork(Leaf, x, Leaf), t.n, t.r))) == LeftPart(k, t) + [x] + [t.n] + RightPart(k, t)
    ensures t.r.Leaf? ==> Inorder(Plug(k, Fork(t.l, t.n, Fork(Leaf, x, Leaf)))) == LeftPart(k, t) + [t.n] + [x] + RightPart(k, t)
  {
    hide Plug, Before, After;
    var f := Fork(Leaf, x, Leaf);
    assert Inorder(f) == [x];
    PlugParts(k, Fork(f, t.n, t.r));
    PlugParts(k, Fork(t.l, t.n, f));
    assert Before(k) + [] == Before(k) && [] + After(k) == After(k);
  }

  lemma {:induction false} FitsBalanced(m: Links, k: Path, t: Tree, h: int)
    requires Fits(m, k, t, h)
    ensures Balanced(t)
  {}

  // --- What the rotations do to a node with one side two levels too high ---

  lemma {:induction false} SingleLeftShape(a: Tree, y: AvlNode, c: Tree)
    requires Balanced(a) && Balanced(c) && Height(a) == Height(c) + 2 && Height(a.r) <= Height(a.l)
    ensures var v := Fork(a.l, a.n, Fork(a.r, y, c));
            && Balanced(v) && Inorder(v) == Inorder(Fork(a, y, c))
            && Height(v) == Height(a) + if Height(a.l) == Height(a.r) then 1 else 0
  {
    RotationInorder(a.l, a.n, a.r, y, c);
    assert Height(Fork(a.r, y, c)) == 1 + Height(a.r);
  }

  lemma {:induction false} SingleRightShape(a: Tree, x: AvlNode, c: Tree)
    requires Balanced(a) && Balanced(c) && Height(c) == Height(a) + 2 && Height(c.l) <= Height(c.r)
    ensures var v := Fork(Fork(a, x, c.l), c.n, c.r);
            && Balanced(v) && Inorder(v) == Inorder(Fork(a, x, c))
            && Height(v) == Height(c) + if Height(c.l) == Height(c.r) then 1 else 0
  {
    RotationInorder(a, x, c.l, c.n, c.r);
    assert Height(Fork(a, x, c.l)) == 1 + Height(c.l);
  }

  lemma {:induction false} DoubleLeftShape(a: Tree, y: AvlNode, c: Tree)
    requires Balanced(a) && Balanced(c) && Height(a) == Height(c) + 2 && Height(a.r) == Height(a.l) + 1
    ensures a.r.Fork? && Height(Fork(Fork(a.l, a.n, a.r.l), a.r.n, a.r.r)) == Height(a)
    ensures var v := Fork(Fork(a.l, a.n, a.r.l), a.r.n, Fork(a.r.r, y, c));
            Balanced(v) && Inorder(v) == Inorder(Fork(a, y, c)) && Height(v) == Height(a)
  {
    var b := a.r;
    assert b.Fork?;
    var p, q := Fork(a.l, a.n, b.l), Fork(b.r, y, c);
    RotationInorder(a.l, a.n, b.l, b.n, b.r);
    RotationInorder(p, b.n, b.r, y, c);
    assert Height(p) == 1 + Height(a.l) && Height(q) == 1 + Height(c);
  }

  lemma {:induction false} DoubleRightShape(a: Tree, x: AvlNode, c: Tree)
    requires Balanced(a) && Balanced(c) && Height(c) == Height(a) + 2 && Height(c.l) == Height(c.r) + 1
    ensures c.l.Fork? && Height(Fork(c.l.l, c.l.n, Fork(c.l.r, c.n, c.r))) == Height(c)
    ensures var v := Fork(Fork(a, x, c.l.l), c.l.n, Fork(c.l.r, c.n, c.r));
            Balanced(v) && Inorder(v) == Inorder(Fork(a, x, c)) && Height(v) == Height(c)
  {
    var b := c.l;
    assert b.Fork?;
    var p, q := Fork(a, x, b.l), Fork(b.r, c.n, c.r);
    RotationInorder(b.l, b.n, b.r, c.n, c.r);
    RotationInorder(a, x, b.l, b.n, q);
    assert Height(p) == 1 + Height(a) && Height(q) == 1 + Height(c.r);
  }

  ghost function Fib(n: nat): nat {
    if n < 2 then n else Fib(n - 2) + Fib(n - 1)
  }

  lemma {:induction false} FibMonotone(m: nat, n: nat)
    requires m <= n
    ensures Fib(m) <= Fib(n)
    decreases n
  {
    if m < n {
      FibMonotone(m, n - 1);
    }
  }

  lemma {:induction false} FibStep(i: nat, j: nat)
    requires i == j || i == j + 1
    ensures Fib(i + 3) <= Fib(i + 2) + Fib(j + 2)
  {
    FibMonotone(i + 1, j + 2);
  }

  // A balanced tree of height h has at least Fib(h + 2) - 1 nodes: its height is logarithmic in its size.
  lemma {:induction false} HeightBound(t: Tree)
    requires Balanced(t)
    ensures Fib(Height(t) + 2) <= |Inorder(t)| + 1
  {
    if t.Fork? {
      HeightBound(t.l);
      HeightBound(t.r);
      var i, j := Height(t.l), Height(t.r);
      if i >= j {
        FibStep(i, j);
      } else {
        FibStep(j, i);
      }
      hide Fib, Balanced;
    }
  }
}
