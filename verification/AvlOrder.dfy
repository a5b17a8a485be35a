// Key order on the list of nodes: sortedness, group leaders, and the list-level meaning of every operation.
module AvlOrder {
  import opened AvlNodes

  type Compare = (Key, Key) -> int

  // Names a triple of keys, so that the laws below are used only where Trans asks for them.
  ghost predicate Triple(a: Key, b: Key, c: Key) { true }

  // The contract of avl_tree_comp: a total preorder, reported by sign.
  ghost predicate Comparator(cmp: Compare) {
    forall a, b, c {:trigger Triple(a, b, c)} ::
      && (cmp(a, b) < 0 <==> cmp(b, a) > 0)
      && (cmp(a, b) <= 0 && cmp(b, c) <= 0 ==> cmp(a, c) <= 0)
  }

  lemma {:induction false} Trans(cmp: Compare, a: Key, b: Key, c: Key)
    requires Comparator(cmp)
    ensures cmp(a, b) <= 0 && cmp(b, c) <= 0 ==> cmp(a, c) <= 0
    ensures cmp(a, b) < 0 && cmp(b, c) <= 0 ==> cmp(a, c) < 0
    ensures cmp(a, b) <= 0 && cmp(b, c) < 0 ==> cmp(a, c) < 0
    ensures cmp(a, b) == 0 && cmp(b, c) == 0 ==> cmp(a, c) == 0
    ensures cmp(a, a) == 0
    ensures cmp(a, b) < 0 <==> cmp(b, a) > 0
    ensures cmp(a, b) > 0 <==> cmp(b, a) < 0
    ensures cmp(b, c) < 0 <==> cmp(c, b) > 0
    ensures cmp(b, c) > 0 <==> cmp(c, b) < 0
    ensures cmp(a, c) < 0 <==> cmp(c, a) > 0
    ensures cmp(a, c) > 0 <==> cmp(c, a) < 0
  {
    assert Triple(a, b, c) && Triple(b, c, a) && Triple(c, a, b);
    assert Triple(a, c, b) && Triple(c, b, a) && Triple(b, a, c) && Triple(a, a, a);
  }

  ghost predicate Sorted(cmp: Compare, s: seq<AvlNode>) {
    forall i, j :: 0 <= i < j < |s| ==> cmp(s[i].key, s[j].key) <= 0
  }

  ghost predicate StrictlySorted(cmp: Compare, s: seq<AvlNode>) {
    forall i, j :: 0 <= i < j < |s| ==> cmp(s[i].key, s[j].key) < 0
  }

  // The first of each run of equal keys.
  ghost predicate IsLeader(cmp: Compare, s: seq<AvlNode>, i: int)
    requires 0 <= i < |s|
  {
    i == 0 || cmp(s[i - 1].key, s[i].key) != 0
  }

  ghost function Leaders(cmp: Compare, s: seq<AvlNode>): seq<AvlNode> {
    if s == [] then [] else
      var k := |s| - 1;
      Leaders(cmp, s[..k]) + if IsLeader(cmp, s, k) then [s[k]] else []
  }

  // How many keys of s are not above key: where a new node with this key belongs.
  ghost function UpperBound(cmp: Compare, s: seq<AvlNode>, key: Key): (k: nat)
    ensures k <= |s|
  {
    if s == [] then 0
    else if cmp(key, s[|s| - 1].key) >= 0 then |s|
    else UpperBound(cmp, s[..|s| - 1], key)
  }

  // How many keys of s are below key.
  ghost function LowerBound(cmp: Compare, s: seq<AvlNode>, key: Key): (k: nat)
    ensures k <= |s|
  {
    if s == [] then 0
    else if cmp(key, s[|s| - 1].key) > 0 then |s|
    else LowerBound(cmp, s[..|s| - 1], key)
  }

  ghost function InsertSorted(cmp: Compare, s: seq<AvlNode>, x: AvlNode): seq<AvlNode> {
    var k := UpperBound(cmp, s, x.key);
    s[..k] + [x] + s[k..]
  }

  ghost function Without(s: seq<AvlNode>, x: AvlNode): seq<AvlNode> {
    if s == [] then []
    else if s[0] == x then s[1..]
    else [s[0]] + Without(s[1..], x)
  }

  ghost predicate HasKey(cmp: Compare, s: seq<AvlNode>, key: Key) {
    exists i :: 0 <= i < |s| && cmp(key, s[i].key) == 0
  }

  // What a search down the tree ends with: m splits the in-order walk around the key.
  ghost predicate Splits(cmp: Compare, s: seq<AvlNode>, key: Key, m: int) {
    && 0 <= m < |s|
    && (forall i :: 0 <= i < m ==> cmp(key, s[i].key) > 0)
    && (forall i :: m < i < |s| ==> cmp(key, s[i].key) < 0)
  }

  // The order of the list, and the marks on its nodes.
  ghost predicate Threaded(cmp: Compare, allowDups: bool, s: seq<AvlNode>) {
    (Sorted(cmp, s) && (!allowDups ==> forall i {:trigger IsLeader(cmp, s, i)} :: 0 <= i < |s| ==> IsLeader(cmp, s, i))) == true
  }

  ghost predicate Marked(cmp: Compare, s: seq<AvlNode>)
    reads Elems(s)`leader
  {
    forall i {:trigger s[i].leader} {:trigger IsLeader(cmp, s, i)} :: 0 <= i < |s| ==> s[i].leader == IsLeader(cmp, s, i)
  }

  // The key falls strictly between s[..k] and s[k..].
  ghost predicate Gap(cmp: Compare, s: seq<AvlNode>, key: Key, k: int) {
    (&& 0 <= k <= |s|
     && (forall i :: 0 <= i < k ==> cmp(key, s[i].key) > 0)
     && (forall i :: k <= i < |s| ==> cmp(key, s[i].key) < 0)) == true
  }

  // s[k..e] is one run of equal keys.
  ghost predicate Group(cmp: Compare, s: seq<AvlNode>, k: nat, e: nat) {
    && k < e <= |s| && IsLeader(cmp, s, k)
    && (forall i {:trigger IsLeader(cmp, s, i)} :: k < i < e ==> !IsLeader(cmp, s, i))
    && (e < |s| ==> IsLeader(cmp, s, e))
  }

  lemma {:induction false} UpperBoundUnique(cmp: Compare, s: seq<AvlNode>, key: Key, k: nat)
    requires k <= |s|
    requires forall i :: 0 <= i < k ==> cmp(key, s[i].key) >= 0
    requires forall i :: k <= i < |s| ==> cmp(key, s[i].key) < 0
    ensures UpperBound(cmp, s, key) == k
  {
    if s != [] && k < |s| {
      UpperBoundUnique(cmp, s[..|s| - 1], key, k);
    }
  }

  lemma {:induction false} UpperBoundSplits(cmp: Compare, s: seq<AvlNode>, key: Key)
    requires Comparator(cmp) && Sorted(cmp, s)
    ensures var k := UpperBound(cmp, s, key);
            && (forall i :: 0 <= i < k ==> cmp(key, s[i].key) >= 0)
            && (forall i :: k <= i < |s| ==> cmp(key, s[i].key) < 0)
  {
    if s == [] {
    } else if cmp(key, s[|s| - 1].key) >= 0 {
      forall i | 0 <= i < |s| ensures cmp(key, s[i].key) >= 0 {
        Trans(cmp, s[i].key, s[|s| - 1].key, key);
        Trans(cmp, s[|s| - 1].key, key, key);
      }
    } else {
      UpperBoundSplits(cmp, s[..|s| - 1], key);
    }
  }

  lemma {:induction false} LowerBoundSplits(cmp: Compare, s: seq<AvlNode>, key: Key)
    requires Comparator(cmp) && Sorted(cmp, s)
    ensures var k := LowerBound(cmp, s, key);
            && (forall i :: 0 <= i < k ==> cmp(key, s[i].key) > 0)
            && (forall i :: k <= i < |s| ==> cmp(key, s[i].key) <= 0)
  {
    if s == [] {
    } else if cmp(key, s[|s| - 1].key) > 0 {
      forall i | 0 <= i < |s| ensures cmp(key, s[i].key) > 0 {
        Trans(cmp, s[i].key, s[|s| - 1].key, key);
      }
    } else {
      LowerBoundSplits(cmp, s[..|s| - 1], key);
    }
  }

  lemma {:induction false} WithoutAt(s: seq<AvlNode>, k: nat)
    requires k < |s| && Distinct(s)
    ensures Without(s, s[k]) == s[..k] + s[k + 1..]
  {
    if k > 0 {
      WithoutAt(s[1..], k - 1);
      assert s[..k] + s[k + 1..] == [s[0]] + (s[1..][..k - 1] + s[1..][k..]);
    }
  }

  lemma {:induction false} LeadersElems(cmp: Compare, s: seq<AvlNode>, x: AvlNode)
    ensures x in Leaders(cmp, s) ==> x in s
  {
    if s != [] {
      LeadersElems(cmp, s[..|s| - 1], x);
    }
  }

  lemma {:induction false} EmptyStrict(cmp: Compare)
    ensures StrictlySorted(cmp, [])
  {}

  lemma {:induction false} AppendStrict(cmp: Compare, l: seq<AvlNode>, x: AvlNode)
    requires Comparator(cmp) && StrictlySorted(cmp, l)
    requires l != [] ==> cmp(l[|l| - 1].key, x.key) < 0
    ensures StrictlySorted(cmp, l + [x])
  {
    forall i | 0 <= i < |l| ensures cmp(l[i].key, x.key) < 0 {
      if i < |l| - 1 {
        Trans(cmp, l[i].key, l[|l| - 1].key, x.key);
      }
    }
  }

  lemma {:induction false} LeadersSorted(cmp: Compare, s: seq<AvlNode>)
    requires Comparator(cmp) && Sorted(cmp, s)
    ensures StrictlySorted(cmp, Leaders(cmp, s))
    ensures s != [] ==> Leaders(cmp, s) != []
    ensures s != [] ==> var l := Leaders(cmp, s); cmp(l[|l| - 1].key, s[|s| - 1].key) == 0
  {
    hide Comparator, StrictlySorted;
    if s == [] {
      EmptyStrict(cmp);
    } else {
      var k := |s| - 1;
      var l := Leaders(cmp, s[..k]);
      LeadersSorted(cmp, s[..k]);
      Trans(cmp, s[k].key, s[k].key, s[k].key);
      if k > 0 {
        Trans(cmp, l[|l| - 1].key, s[k - 1].key, s[k].key);
      }
      if IsLeader(cmp, s, k) {
        AppendStrict(cmp, l, s[k]);
      } else {
        assert l + [] == l;
      }
    }
  }

  // A boundary between two groups splits the leaders.
  lemma {:induction false} LeadersConcat(cmp: Compare, a: seq<AvlNode>, b: seq<AvlNode>)
    requires b == [] || a == [] || cmp(a[|a| - 1].key, b[0].key) != 0
    ensures Leaders(cmp, a + b) == Leaders(cmp, a) + Leaders(cmp, b)
  {
    if b == [] {
      assert a + b == a;
    } else {
      var k := |b| - 1;
      assert (a + b)[..|a| + k] == a + b[..k];
      LeadersConcat(cmp, a, b[..k]);
    }
  }

  lemma {:induction false} LeadersHead(cmp: Compare, s: seq<AvlNode>)
    requires s != []
    ensures Leaders(cmp, s) != [] && Leaders(cmp, s)[0] == s[0]
  {
    if |s| > 1 {
      LeadersHead(cmp, s[..|s| - 1]);
    }
  }

  // A further member of a group changes no leader.
  lemma {:induction false} LeadersFollower(cmp: Compare, a: seq<AvlNode>, x: AvlNode, b: seq<AvlNode>)
    requires Comparator(cmp) && a != [] && cmp(a[|a| - 1].key, x.key) == 0
    ensures Leaders(cmp, a + [x] + b) == Leaders(cmp, a + b)
  {
    if b == [] {
      assert a + [x] + b == a + [x] && (a + [x])[..|a|] == a && a + b == a;
    } else {
      var k := |b| - 1;
      assert (a + [x] + b)[..|a| + 1 + k] == a + [x] + b[..k];
      assert (a + b)[..|a| + k] == a + b[..k];
      LeadersFollower(cmp, a, x, b[..k]);
      Trans(cmp, a[|a| - 1].key, x.key, b[0].key);
      Trans(cmp, x.key, a[|a| - 1].key, b[0].key);
    }
  }

  // A group whose leader goes is led by its next member.
  lemma {:induction false} LeadersHandOver(cmp: Compare, x: AvlNode, y: AvlNode, b: seq<AvlNode>)
    requires Comparator(cmp) && cmp(x.key, y.key) == 0
    ensures Leaders(cmp, [x, y] + b) != [] && Leaders(cmp, [x, y] + b)[0] == x
    ensures Leaders(cmp, [y] + b) == [y] + Leaders(cmp, [x, y] + b)[1..]
  {
    LeadersHead(cmp, [x, y] + b);
    if b == [] {
      assert [x, y] + b == [x, y] && [x, y][..1] == [x] && [y] + b == [y] && [x][..0] == [] && [y][..0] == [];
    } else {
      var k := |b| - 1;
      assert ([x, y] + b)[..2 + k] == [x, y] + b[..k];
      assert ([y] + b)[..1 + k] == [y] + b[..k];
      LeadersHandOver(cmp, x, y, b[..k]);
    }
  }

  // Where the m-th leader stands in the list.
  lemma {:induction false} LeaderIndex(cmp: Compare, s: seq<AvlNode>, m: nat) returns (k: nat)
    requires m < |Leaders(cmp, s)|
    ensures k < |s| && s[k] == Leaders(cmp, s)[m] && IsLeader(cmp, s, k)
    ensures |Leaders(cmp, s[..k])| == m
  {
    var n := |s| - 1;
    if m < |Leaders(cmp, s[..n])| {
      k := LeaderIndex(cmp, s[..n], m);
      assert s[..n][..k] == s[..k];
    } else {
      k := n;
    }
  }

  // No leader strictly between k and e: one group.
  lemma {:induction false} GroupRun(cmp: Compare, s: seq<AvlNode>, k: nat, e: nat)
    requires Comparator(cmp) && k < e <= |s| && IsLeader(cmp, s, k)
    requires forall i {:trigger IsLeader(cmp, s, i)} :: k < i < e ==> !IsLeader(cmp, s, i)
    ensures forall i :: k <= i < e ==> cmp(s[k].key, s[i].key) == 0
    ensures Leaders(cmp, s[..e]) == Leaders(cmp, s[..k]) + [s[k]]
  {
    if e == k + 1 {
      Trans(cmp, s[k].key, s[k].key, s[k].key);
      assert s[..e][..k] == s[..k];
    } else {
      GroupRun(cmp, s, k, e - 1);
      assert s[..e][..e - 1] == s[..e - 1];
      Trans(cmp, s[k].key, s[e - 2].key, s[e - 1].key);
      assert !IsLeader(cmp, s, e - 1);
    }
  }

  // In a sorted list the neighbours of a range bound everything outside it.
  lemma {:induction false} BoundsFromNeighbours(cmp: Compare, s: seq<AvlNode>, key: Key, k: nat, e: nat)
    requires Comparator(cmp) && Sorted(cmp, s) && k <= e <= |s|
    requires k > 0 ==> cmp(key, s[k - 1].key) > 0
    requires e < |s| ==> cmp(key, s[e].key) < 0
    ensures forall i :: 0 <= i < k ==> cmp(key, s[i].key) > 0
    ensures forall i :: e <= i < |s| ==> cmp(key, s[i].key) < 0
  {
    forall i | 0 <= i < k ensures cmp(key, s[i].key) > 0 {
      Trans(cmp, s[i].key, s[k - 1].key, key);
    }
    forall i | e <= i < |s| ensures cmp(key, s[i].key) < 0 {
      Trans(cmp, s[e].key, s[e].key, s[i].key);
      Trans(cmp, key, s[e].key, s[i].key);
    }
  }

  // A group s[k..e] takes exactly one place among the leaders.
  lemma {:induction false} GroupSplit(cmp: Compare, s: seq<AvlNode>, k: nat, e: nat)
    requires Comparator(cmp) && Group(cmp, s, k, e)
    ensures Leaders(cmp, s) == Leaders(cmp, s[..k]) + [s[k]] + Leaders(cmp, s[e..])
    ensures forall i :: k <= i < e ==> cmp(s[k].key, s[i].key) == 0
  {
    GroupRun(cmp, s, k, e);
    assert s == s[..e] + s[e..];
    LeadersConcat(cmp, s[..e], s[e..]);
  }

  lemma {:induction false} LastLeader(cmp: Compare, s: seq<AvlNode>) returns (y: AvlNode)
    requires Comparator(cmp) && Sorted(cmp, s) && s != []
    ensures y in Leaders(cmp, s) && cmp(y.key, s[|s| - 1].key) == 0
  {
    LeadersSorted(cmp, s);
    y := Leaders(cmp, s)[|Leaders(cmp, s)| - 1];
  }

  lemma {:induction false} LeaderBelow(cmp: Compare, s: seq<AvlNode>, key: Key)
    requires Comparator(cmp) && Sorted(cmp, s) && s != []
    requires forall y :: y in Leaders(cmp, s) ==> cmp(key, y.key) > 0
    ensures cmp(key, s[|s| - 1].key) > 0
  {
    var y := LastLeader(cmp, s);
    Trans(cmp, y.key, s[|s| - 1].key, key);
    Trans(cmp, s[|s| - 1].key, y.key, key);
  }

  // From the place of a key among the leaders to its place in the list: the group of the m-th leader is
  // s[k..e], everything before it is below the key and everything after it above.
  lemma {:induction false} SplitList(cmp: Compare, s: seq<AvlNode>, key: Key, m: nat, k: nat, e: nat)
    requires Comparator(cmp) && Sorted(cmp, s)
    requires Splits(cmp, Leaders(cmp, s), key, m)
    requires Group(cmp, s, k, e) && |Leaders(cmp, s[..k])| == m
    ensures forall i :: 0 <= i < k ==> cmp(key, s[i].key) > 0
    ensures forall i :: e <= i < |s| ==> cmp(key, s[i].key) < 0
  {
    GroupSplit(cmp, s, k, e);
    var l, a, b := Leaders(cmp, s), Leaders(cmp, s[..k]), Leaders(cmp, s[e..]);
    if k > 0 {
      forall y | y in a ensures cmp(key, y.key) > 0 {
        var i :| 0 <= i < m && a[i] == y;
        assert l[i] == y;
      }
      LeaderBelow(cmp, s[..k], key);
    }
    if e < |s| {
      LeadersHead(cmp, s[e..]);
      assert l[m + 1] == b[0] == s[e];
    }
    BoundsFromNeighbours(cmp, s, key, k, e);
  }

  // --- What insertion and deletion do to order and leaders ---

  lemma {:induction false} SplicedSorted(cmp: Compare, s: seq<AvlNode>, x: AvlNode, i: nat)
    requires Comparator(cmp) && Sorted(cmp, s) && i <= |s|
    requires forall j :: 0 <= j < i ==> cmp(x.key, s[j].key) >= 0
    requires forall j :: i <= j < |s| ==> cmp(x.key, s[j].key) < 0
    ensures Sorted(cmp, s[..i] + [x] + s[i..]) && InsertSorted(cmp, s, x) == s[..i] + [x] + s[i..]
  {
    UpperBoundUnique(cmp, s, x.key, i);
    var s' := s[..i] + [x] + s[i..];
    forall a, b | 0 <= a < b < |s'| ensures cmp(s'[a].key, s'[b].key) <= 0 {
      if b == i {
        Trans(cmp, x.key, x.key, s[a].key);
      }
    }
  }

  // Inserting or cutting moves the other marks along.
  lemma {:induction false} SplicedMarks(cmp: Compare, s: seq<AvlNode>, x: AvlNode, i: nat)
    requires i <= |s|
    ensures var s' := s[..i] + [x] + s[i..];
            && (forall j :: 0 <= j < i ==> (IsLeader(cmp, s', j) <==> IsLeader(cmp, s, j)))
            && (forall j :: i + 1 < j < |s'| ==> (IsLeader(cmp, s', j) <==> IsLeader(cmp, s, j - 1)))
            && (IsLeader(cmp, s', i) <==> i == 0 || cmp(s[i - 1].key, x.key) != 0)
            && (i < |s| ==> (IsLeader(cmp, s', i + 1) <==> cmp(x.key, s[i].key) != 0))
  {}

  // The marks on the nodes themselves follow.
  lemma {:induction false} SplicedMarked(cmp: Compare, s: seq<AvlNode>, x: AvlNode, i: nat)
    requires i <= |s| && Marked(cmp, s)
    requires var s' := s[..i] + [x] + s[i..];
             forall j :: 0 <= j < |s'| ==> (IsLeader(cmp, s', j) <==> if j == i then x.leader else IsLeader(cmp, s, if j < i then j else j - 1))
    ensures Marked(cmp, s[..i] + [x] + s[i..])
  {
    var s' := s[..i] + [x] + s[i..];
    forall j | 0 <= j < |s'| ensures s'[j].leader == IsLeader(cmp, s', j) {
      if j != i {
        assert s'[j] == s[if j < i then j else j - 1];
      }
    }
  }

  lemma {:induction false} CutMarks(cmp: Compare, s: seq<AvlNode>, k: nat)
    requires k < |s|
    ensures var s' := s[..k] + s[k + 1..];
            && (forall j :: 0 <= j < k ==> (IsLeader(cmp, s', j) <==> IsLeader(cmp, s, j)))
            && (forall j :: k < j < |s'| ==> (IsLeader(cmp, s', j) <==> IsLeader(cmp, s, j + 1)))
            && (k < |s'| ==> (IsLeader(cmp, s', k) <==> k == 0 || cmp(s[k - 1].key, s[k + 1].key) != 0))
  {}

  lemma {:induction false} MarkedAt(cmp: Compare, s: seq<AvlNode>, k: nat)
    requires Marked(cmp, s)
    ensures k < |s| ==> s[k].leader == IsLeader(cmp, s, k)
    ensures k + 1 < |s| ==> s[k + 1].leader == IsLeader(cmp, s, k + 1)
  {}

  // The marks are right except at position x.
  ghost predicate MarkedBut(cmp: Compare, s: seq<AvlNode>, x: int)
    reads Elems(s)`leader
  {
    forall i {:trigger s[i].leader} {:trigger IsLeader(cmp, s, i)} :: 0 <= i < |s| && i != x ==> s[i].leader == IsLeader(cmp, s, i)
  }

  lemma {:induction false} CutMarked(cmp: Compare, s: seq<AvlNode>, k: nat)
    requires k < |s| && Marked(cmp, s)
    requires var s' := s[..k] + s[k + 1..];
             forall j :: 0 <= j < |s'| ==> (IsLeader(cmp, s', j) <==> IsLeader(cmp, s, if j < k then j else j + 1))
    ensures Marked(cmp, s[..k] + s[k + 1..])
  {
    var s' := s[..k] + s[k + 1..];
    forall j | 0 <= j < |s'| ensures s'[j].leader == IsLeader(cmp, s', j) {
      assert s'[j] == s[if j < k then j else j + 1];
    }
  }

  lemma {:induction false} CutMarkedLeader(cmp: Compare, s: seq<AvlNode>, k: nat)
    requires k + 1 < |s| && MarkedBut(cmp, s, k + 1) && s[k + 1].leader
    requires var s' := s[..k] + s[k + 1..];
             forall j :: 0 <= j < |s'| ==> (IsLeader(cmp, s', j) <==> j == k || IsLeader(cmp, s, if j < k then j else j + 1))
    ensures Marked(cmp, s[..k] + s[k + 1..])
  {
    var s' := s[..k] + s[k + 1..];
    forall j | 0 <= j < |s'| ensures s'[j].leader == IsLeader(cmp, s', j) {
      assert s'[j] == s[if j < k then j else j + 1];
    }
  }

  // Only nodes at leading positions are leaders.
  lemma {:induction false} FollowerNotIn(cmp: Compare, s: seq<AvlNode>, k: nat)
    requires Distinct(s) && k < |s| && !IsLeader(cmp, s, k)
    ensures s[k] !in Leaders(cmp, s)
  {
    var n := |s| - 1;
    if k < n {
      FollowerNotIn(cmp, s[..n], k);
    } else {
      LeadersElems(cmp, s[..n], s[n]);
    }
  }

  lemma {:induction false} LeaderIn(cmp: Compare, s: seq<AvlNode>, k: nat)
    requires k < |s| && IsLeader(cmp, s, k)
    ensures s[k] in Leaders(cmp, s)
  {
    if k < |s| - 1 {
      LeaderIn(cmp, s[..|s| - 1], k);
    }
  }

  lemma {:induction false} CutSorted(cmp: Compare, s: seq<AvlNode>, k: nat)
    requires Sorted(cmp, s) && k < |s|
    ensures Sorted(cmp, s[..k] + s[k + 1..])
  {}

  // A key that is not there yet starts a group of its own.
  lemma {:induction false} NewGroup(cmp: Compare, allowDups: bool, s: seq<AvlNode>, x: AvlNode, i: nat)
    requires Comparator(cmp) && Threaded(cmp, allowDups, s) && i <= |s| && Gap(cmp, s, x.key, i)
    ensures var s' := s[..i] + [x] + s[i..];
            && Threaded(cmp, allowDups, s') && InsertSorted(cmp, s, x) == s' && !HasKey(cmp, s, x.key)
            && forall j :: 0 <= j < |s'| ==> (IsLeader(cmp, s', j) <==> if j == i then true else IsLeader(cmp, s, if j < i then j else j - 1))
  {
    hide Comparator, Sorted;
    SplicedSorted(cmp, s, x, i);
    SplicedMarks(cmp, s, x, i);
    if i > 0 {
      Trans(cmp, x.key, s[i - 1].key, x.key);
      if i < |s| {
        Trans(cmp, s[i - 1].key, x.key, s[i].key);
      }
    }
  }

  lemma {:induction false} NewGroupLeaders(cmp: Compare, s: seq<AvlNode>, x: AvlNode, i: nat)
    requires Comparator(cmp) && i <= |s|
    requires i > 0 ==> cmp(x.key, s[i - 1].key) > 0
    requires i < |s| ==> cmp(x.key, s[i].key) < 0
    ensures Leaders(cmp, s[..i] + [x] + s[i..]) == Leaders(cmp, s[..i]) + [x] + Leaders(cmp, s[i..])
  {
    if i > 0 {
      Trans(cmp, x.key, s[i - 1].key, x.key);
    }
    LeadersConcat(cmp, s[..i] + [x], s[i..]);
    LeadersConcat(cmp, s[..i], [x]);
    assert Leaders(cmp, [x]) == [x] by { assert [x][..0] == []; }
  }

  // A key that is there already goes behind its group.
  lemma {:induction false} NewFollower(cmp: Compare, s: seq<AvlNode>, x: AvlNode, e: nat)
    requires Comparator(cmp) && Sorted(cmp, s) && 0 < e <= |s| && cmp(x.key, s[e - 1].key) == 0
    requires forall j :: e <= j < |s| ==> cmp(x.key, s[j].key) < 0
    ensures var s' := s[..e] + [x] + s[e..];
            && Threaded(cmp, true, s') && InsertSorted(cmp, s, x) == s'
            && Leaders(cmp, s') == Leaders(cmp, s)
            && forall j :: 0 <= j < |s'| ==> (IsLeader(cmp, s', j) <==> if j == e then false else IsLeader(cmp, s, if j < e then j else j - 1))
  {
    hide Comparator, Leaders;
    forall j | 0 <= j < e ensures cmp(x.key, s[j].key) >= 0 {
      Trans(cmp, s[j].key, s[e - 1].key, x.key);
      Trans(cmp, s[e - 1].key, x.key, x.key);
      Trans(cmp, x.key, s[j].key, x.key);
    }
    hide Sorted;
    SplicedSorted(cmp, s, x, e);
    SplicedMarks(cmp, s, x, e);
    Trans(cmp, s[e - 1].key, x.key, x.key);
    if e < |s| {
      Trans(cmp, s[e - 1].key, x.key, s[e].key);
    }
    LeadersFollower(cmp, s[..e], x, s[e..]);
    assert s[..e] + s[e..] == s;
  }

  // A follower goes: no leader changes.
  lemma {:induction false} FollowerGone(cmp: Compare, allowDups: bool, s: seq<AvlNode>, k: nat)
    requires Comparator(cmp) && Threaded(cmp, allowDups, s) && k < |s| && !IsLeader(cmp, s, k)
    ensures var s' := s[..k] + s[k + 1..];
            && Threaded(cmp, allowDups, s') && Leaders(cmp, s') == Leaders(cmp, s)
            && forall j :: 0 <= j < |s'| ==> (IsLeader(cmp, s', j) <==> IsLeader(cmp, s, if j < k then j else j + 1))
  {
    hide Comparator, Leaders, Sorted;
    CutSorted(cmp, s, k);
    CutMarks(cmp, s, k);
    LeadersFollower(cmp, s[..k], s[k], s[k + 1..]);
    assert s == s[..k] + [s[k]] + s[k + 1..];
    if k + 1 < |s| {
      Trans(cmp, s[k - 1].key, s[k].key, s[k + 1].key);
      Trans(cmp, s[k].key, s[k - 1].key, s[k + 1].key);
    }
  }

  // A leader goes that leads nobody else: it goes from the leaders too.
  lemma {:induction false} GroupGone(cmp: Compare, allowDups: bool, s: seq<AvlNode>, k: nat)
    requires Comparator(cmp) && Threaded(cmp, allowDups, s) && k < |s| && IsLeader(cmp, s, k)
    requires k + 1 < |s| ==> IsLeader(cmp, s, k + 1)
    ensures var s' := s[..k] + s[k + 1..];
            && Threaded(cmp, allowDups, s')
            && Leaders(cmp, s) == Leaders(cmp, s[..k]) + [s[k]] + Leaders(cmp, s[k + 1..])
            && Leaders(cmp, s') == Leaders(cmp, s[..k]) + Leaders(cmp, s[k + 1..])
            && forall j :: 0 <= j < |s'| ==> (IsLeader(cmp, s', j) <==> IsLeader(cmp, s, if j < k then j else j + 1))
  {
    hide Comparator, Leaders;
    GroupSplit(cmp, s, k, k + 1);
    if 0 < k < |s| - 1 {
      Trans(cmp, s[k - 1].key, s[k].key, s[k + 1].key);
    }
    hide Sorted;
    CutSorted(cmp, s, k);
    CutMarks(cmp, s, k);
    LeadersConcat(cmp, s[..k], s[k + 1..]);
  }

  // A leader goes and its next follower leads.
  lemma {:induction false} LeaderGone(cmp: Compare, s: seq<AvlNode>, k: nat)
    requires Comparator(cmp) && Sorted(cmp, s) && k + 1 < |s| && IsLeader(cmp, s, k) && !IsLeader(cmp, s, k + 1)
    ensures var s' := s[..k] + s[k + 1..];
            && Threaded(cmp, true, s')
            && forall j :: 0 <= j < |s'| ==> (IsLeader(cmp, s', j) <==> j == k || IsLeader(cmp, s, if j < k then j else j + 1))
  {
    hide Comparator, Sorted;
    CutSorted(cmp, s, k);
    CutMarks(cmp, s, k);
    if k > 0 {
      Trans(cmp, s[k - 1].key, s[k + 1].key, s[k].key);
      Trans(cmp, s[k + 1].key, s[k].key, s[k + 1].key);
      Trans(cmp, s[k].key, s[k + 1].key, s[k].key);
    }
  }

  lemma {:induction false} LeaderGoneLeaders(cmp: Compare, s: seq<AvlNode>, k: nat)
    requires Comparator(cmp) && k + 1 < |s| && IsLeader(cmp, s, k) && !IsLeader(cmp, s, k + 1)
    ensures var l := Leaders(cmp, s[k..]);
            && l != [] && l[0] == s[k]
            && Leaders(cmp, s) == Leaders(cmp, s[..k]) + [s[k]] + l[1..]
            && Leaders(cmp, s[..k] + s[k + 1..]) == Leaders(cmp, s[..k]) + [s[k + 1]] + l[1..]
  {
    hide Comparator, Leaders;
    var b := s[k + 2..];
    LeadersHandOver(cmp, s[k], s[k + 1], b);
    assert s[k..] == [s[k], s[k + 1]] + b && s[k + 1..] == [s[k + 1]] + b;
    assert s == s[..k] + s[k..];
    LeadersConcat(cmp, s[..k], s[k..]);
    if k > 0 {
      Trans(cmp, s[k - 1].key, s[k + 1].key, s[k].key);
      Trans(cmp, s[k + 1].key, s[k].key, s[k + 1].key);
      Trans(cmp, s[k].key, s[k + 1].key, s[k].key);
    }
    LeadersConcat(cmp, s[..k], s[k + 1..]);
  }
}
