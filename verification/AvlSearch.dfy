// One step of the search down the tree, on the in-order walk.
module AvlSearch {
  import opened AvlNodes
  import opened AvlShape
  import opened AvlOrder

  // The key lies to the left, at, or to the right of the root, and so does everything beyond the root.
  lemma {:induction false} FindStep(cmp: Compare, t: Tree, key: Key)
    requires Comparator(cmp) && t.Fork? && StrictlySorted(cmp, Inorder(t))
    ensures StrictlySorted(cmp, Inorder(t.l)) && StrictlySorted(cmp, Inorder(t.r))
    ensures Inorder(t)[|Inorder(t.l)|] == t.n
    ensures var diff, k, s := cmp(key, t.n.key), |Inorder(t.l)|, Inorder(t);
            && (diff <= 0 ==> forall i :: k < i < |s| ==> cmp(key, s[i].key) < 0)
            && (diff >= 0 ==> forall i :: 0 <= i < k ==> cmp(key, s[i].key) > 0)
  {
    var s, k := Inorder(t), |Inorder(t.l)|;
    assert Inorder(t.l) == s[..k] && Inorder(t.r) == s[k + 1..] && s[k] == t.n;
    forall i | 0 <= i < |s| && i != k
      ensures i > k && cmp(key, t.n.key) <= 0 ==> cmp(key, s[i].key) < 0
      ensures i < k && cmp(key, t.n.key) >= 0 ==> cmp(key, s[i].key) > 0
    {
      Trans(cmp, key, t.n.key, s[i].key);
      Trans(cmp, s[i].key, t.n.key, key);
    }
  }

  lemma {:induction false} SplitsLeft(cmp: Compare, t: Tree, key: Key, m: int)
    requires t.Fork? && Splits(cmp, Inorder(t.l), key, m) && cmp(key, t.n.key) < 0
    requires forall i :: |Inorder(t.l)| < i < |Inorder(t)| ==> cmp(key, Inorder(t)[i].key) < 0
    ensures Splits(cmp, Inorder(t), key, m) && Inorder(t)[m] == Inorder(t.l)[m]
  {
    var s, l := Inorder(t), Inorder(t.l);
    assert forall i :: 0 <= i < |l| ==> s[i] == l[i];
    assert s[|l|] == t.n;
  }

  lemma {:induction false} SplitsRight(cmp: Compare, t: Tree, key: Key, m: int)
    requires t.Fork? && Splits(cmp, Inorder(t.r), key, m) && cmp(key, t.n.key) > 0
    requires forall i :: 0 <= i < |Inorder(t.l)| ==> cmp(key, Inorder(t)[i].key) > 0
    ensures Splits(cmp, Inorder(t), key, |Inorder(t.l)| + 1 + m) && Inorder(t)[|Inorder(t.l)| + 1 + m] == Inorder(t.r)[m]
  {
    var s, k, r := Inorder(t), |Inorder(t.l)|, Inorder(t.r);
    assert forall i :: k < i < |s| ==> s[i] == r[i - k - 1];
    assert s[k] == t.n;
  }

  // The leaders as the tree sees them from the leader of the group s[k..e].
  lemma {:induction false} LeaderPlace(cmp: Compare, s: seq<AvlNode>, k: nat, e: nat, a: seq<AvlNode>, b: seq<AvlNode>)
    requires Comparator(cmp) && Group(cmp, s, k, e)
    requires Leaders(cmp, s) == a + [s[k]] + b && Distinct(Leaders(cmp, s))
    ensures Leaders(cmp, s[..k]) == a && Leaders(cmp, s[k..]) == [s[k]] + b
    ensures Leaders(cmp, s[..e]) == a + [s[k]] && Leaders(cmp, s[e..]) == b
  {
    hide Comparator, Leaders, Distinct;
    GroupSplit(cmp, s, k, e);
    GroupRun(cmp, s, k, e);
    UniqueSplit(a, b, Leaders(cmp, s[..k]), Leaders(cmp, s[e..]), s[k]);
    assert s[..k] + s[k..] == s;
    LeadersConcat(cmp, s[..k], s[k..]);
    var c := Leaders(cmp, s[k..]);
    assert a + c == a + ([s[k]] + b);
    assert c == (a + c)[|a|..];
  }

  lemma {:induction false} TreeElems(cmp: Compare, s: seq<AvlNode>, t: Tree)
    requires Inorder(t) == Leaders(cmp, s)
    ensures Nodes(t) <= Elems(s)
  {
    InorderElems(t);
    forall x | x in Nodes(t) ensures x in s {
      LeadersElems(cmp, s, x);
    }
  }

  // Where a new leader x goes relative to the neighbour that is already there.
  lemma {:induction false} LeaderBefore(cmp: Compare, allowDups: bool, s: seq<AvlNode>, x: AvlNode, k: nat, a: seq<AvlNode>, y: AvlNode, b: seq<AvlNode>)
    requires Comparator(cmp) && Threaded(cmp, allowDups, s) && k <= |s| && Gap(cmp, s, x.key, k)
    requires Leaders(cmp, s[..k]) == a && Leaders(cmp, s[k..]) == [y] + b
    ensures Leaders(cmp, s[..k] + [x] + s[k..]) == a + [x] + [y] + b
  {
    NewGroupLeaders(cmp, s, x, k);
    assert a + [x] + ([y] + b) == a + [x] + [y] + b;
  }

  lemma {:induction false} LeaderAfter(cmp: Compare, allowDups: bool, s: seq<AvlNode>, x: AvlNode, e: nat, a: seq<AvlNode>, y: AvlNode, b: seq<AvlNode>)
    requires Comparator(cmp) && Threaded(cmp, allowDups, s) && e <= |s| && Gap(cmp, s, x.key, e)
    requires Leaders(cmp, s[..e]) == a + [y] && Leaders(cmp, s[e..]) == b
    ensures Leaders(cmp, s[..e] + [x] + s[e..]) == a + [y] + [x] + b
  {
    NewGroupLeaders(cmp, s, x, e);
  }

  lemma {:induction false} ThreadedSorted(cmp: Compare, allowDups: bool, s: seq<AvlNode>)
    requires Threaded(cmp, allowDups, s)
    ensures Sorted(cmp, s)
  {}

  lemma {:induction false} AllLeaders(cmp: Compare, s: seq<AvlNode>, k: nat)
    requires Threaded(cmp, false, s)
    ensures k < |s| ==> IsLeader(cmp, s, k)
  {}

  lemma {:induction false} SplitsRange(cmp: Compare, s: seq<AvlNode>, key: Key, m: int)
    requires Splits(cmp, s, key, m)
    ensures 0 <= m < |s|
  {}

  lemma {:induction false} LeadersShort(cmp: Compare, s: seq<AvlNode>)
    ensures |Leaders(cmp, s)| <= |s|
  {
    if s != [] {
      LeadersShort(cmp, s[..|s| - 1]);
    }
  }

  // What the place among the leaders means for the whole list.
  lemma {:induction false} PlaceInList(cmp: Compare, allowDups: bool, s: seq<AvlNode>, key: Key, m: nat, k: nat, e: nat)
    requires Comparator(cmp) && Threaded(cmp, allowDups, s)
    requires k < e <= |s| && Group(cmp, s, k, e) && |Leaders(cmp, s[..k])| == m && Splits(cmp, Leaders(cmp, s), key, m)
    ensures var diff := cmp(key, s[k].key);
            && (diff < 0 ==> Gap(cmp, s, key, k))
            && (diff > 0 ==> Gap(cmp, s, key, e))
            && (diff == 0 ==> cmp(key, s[e - 1].key) == 0 && HasKey(cmp, s, key))
            && (forall j :: e <= j < |s| ==> cmp(key, s[j].key) < 0)
  {
    ThreadedSorted(cmp, allowDups, s);
    SplitList(cmp, s, key, m, k, e);
    GroupSplit(cmp, s, k, e);
    hide Comparator, Sorted, Splits, Leaders, Threaded;
    forall i | k <= i < e
      ensures cmp(key, s[k].key) < 0 ==> cmp(key, s[i].key) < 0
      ensures cmp(key, s[k].key) > 0 ==> cmp(key, s[i].key) > 0
      ensures cmp(key, s[k].key) == 0 ==> cmp(key, s[i].key) == 0
    {
      Trans(cmp, key, s[k].key, s[i].key);
      Trans(cmp, s[i].key, s[k].key, key);
      Trans(cmp, s[k].key, s[i].key, key);
    }
  }

  lemma {:induction false} NoNodes(cmp: Compare, s: seq<AvlNode>, m: Links, t: Tree)
    requires Whole(m, t, null) && Inorder(t) == Leaders(cmp, s)
    ensures s == []
  {
    if s != [] {
      LeadersHead(cmp, s);
      assert false;
    }
  }

  lemma {:induction false} OneNode(cmp: Compare, allowDups: bool, x: AvlNode)
    requires x.parent == null && x.left == null && x.right == null && x.balance == 0 && x.leader
    ensures Threaded(cmp, allowDups, [x]) && Marked(cmp, [x])
    ensures Whole(Snap(Elems([x])), Fork(Leaf, x, Leaf), x) && Inorder(Fork(Leaf, x, Leaf)) == Leaders(cmp, [x])
    ensures InsertSorted(cmp, [], x) == [x] && !HasKey(cmp, [], x.key)
  {
    assert [x][..0] == [];
    assert Inorder(Fork(Leaf, x, Leaf)) == [x];
    var m, t := Snap(Elems([x])), Fork(Leaf, x, Leaf);
    assert x in [x] && Height(Leaf) == 0;
    assert x in m && m[x] == Fields(null, null, null, 0);
    assert Linked(m, Leaf, x) && Linked(m, t, null) && Apart(t) && Balanced(t);
  }

  lemma {:induction false} NoTree(cmp: Compare, allowDups: bool)
    ensures Threaded(cmp, allowDups, []) && Marked(cmp, [])
    ensures Whole(Snap(Elems([])), Leaf, null) && Inorder(Leaf) == Leaders(cmp, [])
  {}

  // A search that ends beside the key proves that the list does not hold it.
  lemma {:induction false} KeyAtPlace(cmp: Compare, allowDups: bool, s: seq<AvlNode>, key: Key, m: nat, k: nat)
    requires Comparator(cmp) && Threaded(cmp, allowDups, s)
    requires k < |s| && IsLeader(cmp, s, k) && |Leaders(cmp, s[..k])| == m && Splits(cmp, Leaders(cmp, s), key, m)
    ensures HasKey(cmp, s, key) <==> cmp(key, s[k].key) == 0
  {
    hide Splits, Leaders, Threaded;
    var e := GroupEnd(cmp, s, k);
    PlaceInList(cmp, allowDups, s, key, m, k, e);
  }

  lemma {:induction false} GroupEnd(cmp: Compare, s: seq<AvlNode>, k: nat) returns (e: nat)
    requires k < |s| && IsLeader(cmp, s, k)
    ensures k < e <= |s| && Group(cmp, s, k, e)
  {
    e := k + 1;
    while e < |s| && !IsLeader(cmp, s, e)
      invariant k < e <= |s|
      invariant forall i {:trigger IsLeader(cmp, s, i)} :: k < i < e ==> !IsLeader(cmp, s, i)
    {
      e := e + 1;
    }
  }
}
