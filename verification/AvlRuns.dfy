// Whole runs of insertions and deletions, on the list that the tree carries.
module AvlRuns {
  import opened AvlNodes
  import opened AvlOrder
  import opened Avl

  datatype Op = Ins(x: AvlNode) | Del(x: AvlNode)

  // avl_insert takes a node that is not in the tree, avl_delete one that is.
  ghost predicate Legal(s: seq<AvlNode>, op: Op) {
    match op
    case Ins(x) => x !in s
    case Del(x) => x in s
  }

  ghost function Apply(cmp: Compare, allowDups: bool, s: seq<AvlNode>, op: Op): seq<AvlNode> {
    match op
    case Ins(x) => if !allowDups && HasKey(cmp, s, x.key) then s else InsertSorted(cmp, s, x)
    case Del(x) => Without(s, x)
  }

  ghost function Run(cmp: Compare, allowDups: bool, ops: seq<Op>): seq<AvlNode> {
    if ops == [] then [] else Apply(cmp, allowDups, Run(cmp, allowDups, ops[..|ops| - 1]), ops[|ops| - 1])
  }

  ghost predicate LegalRun(cmp: Compare, allowDups: bool, ops: seq<Op>) {
    ops == [] ||
    (LegalRun(cmp, allowDups, ops[..|ops| - 1]) && Legal(Run(cmp, allowDups, ops[..|ops| - 1]), ops[|ops| - 1]))
  }

  // The nodes of s whose key equals key, in list order.
  ghost function WithKey(cmp: Compare, s: seq<AvlNode>, key: Key): seq<AvlNode> {
    if s == [] then [] else
      WithKey(cmp, s[..|s| - 1], key) + if cmp(key, s[|s| - 1].key) == 0 then [s[|s| - 1]] else []
  }

  // What a queue for one key would hold: arrivals at the back, departures from anywhere.
  ghost function Queue(cmp: Compare, ops: seq<Op>, key: Key): seq<AvlNode> {
    if ops == [] then [] else
      var q := Queue(cmp, ops[..|ops| - 1], key);
      match ops[|ops| - 1]
      case Ins(x) => if cmp(key, x.key) == 0 then q + [x] else q
      case Del(x) => Without(q, x)
  }

  lemma {:induction false} WithKeyConcat(cmp: Compare, a: seq<AvlNode>, b: seq<AvlNode>, key: Key)
    ensures WithKey(cmp, a + b, key) == WithKey(cmp, a, key) + WithKey(cmp, b, key)
  {
    if b == [] {
      assert a + b == a;
    } else {
      var k := |b| - 1;
      assert (a + b)[..|a| + k] == a + b[..k];
      WithKeyConcat(cmp, a, b[..k], key);
    }
  }

  lemma {:induction false} WithKeyNone(cmp: Compare, s: seq<AvlNode>, key: Key)
    requires forall i :: 0 <= i < |s| ==> cmp(key, s[i].key) != 0
    ensures WithKey(cmp, s, key) == []
  {
    if s != [] {
      WithKeyNone(cmp, s[..|s| - 1], key);
    }
  }

  lemma {:induction false} WithKeyElems(cmp: Compare, s: seq<AvlNode>, key: Key, x: AvlNode)
    ensures x in WithKey(cmp, s, key) <==> x in s && cmp(key, x.key) == 0
  {
    if s != [] {
      WithKeyElems(cmp, s[..|s| - 1], key, x);
    }
  }

  lemma {:induction false} WithKeyOne(cmp: Compare, x: AvlNode, key: Key)
    ensures WithKey(cmp, [x], key) == if cmp(key, x.key) == 0 then [x] else []
  {
    assert [x][..0] == [];
  }

  // Insertion puts a node behind every node with its key and leaves the other groups alone.
  lemma {:induction false} InsertedWithKey(cmp: Compare, s: seq<AvlNode>, x: AvlNode, key: Key)
    requires Comparator(cmp) && Sorted(cmp, s)
    ensures WithKey(cmp, InsertSorted(cmp, s, x), key) == WithKey(cmp, s, key) + if cmp(key, x.key) == 0 then [x] else []
  {
    hide WithKey, Sorted, Comparator, UpperBound;
    var k := UpperBound(cmp, s, x.key);
    UpperBoundSplits(cmp, s, x.key);
    WithKeyAround(cmp, s[..k], x, s[k..], key);
    assert s[..k] + s[k..] == s;
    if cmp(key, x.key) == 0 {
      forall i | k <= i < |s| ensures cmp(key, s[i].key) != 0 {
        Trans(cmp, x.key, key, s[i].key);
        Trans(cmp, key, x.key, s[i].key);
      }
      WithKeyNone(cmp, s[k..], key);
    }
  }

  lemma {:induction false} WithoutConcat(a: seq<AvlNode>, b: seq<AvlNode>, x: AvlNode)
    ensures Without(a + b, x) == if x in a then Without(a, x) + b else a + Without(b, x)
  {
    if a == [] {
      assert a + b == b;
    } else if a[0] == x {
      assert (a + b)[1..] == a[1..] + b;
    } else {
      assert (a + b)[1..] == a[1..] + b;
      WithoutConcat(a[1..], b, x);
      assert x in a <==> x in a[1..];
    }
  }

  lemma {:induction false} WithKeyAround(cmp: Compare, a: seq<AvlNode>, x: AvlNode, b: seq<AvlNode>, key: Key)
    ensures WithKey(cmp, a + [x] + b, key)
         == WithKey(cmp, a, key) + (if cmp(key, x.key) == 0 then [x] else []) + WithKey(cmp, b, key)
    ensures WithKey(cmp, a + b, key) == WithKey(cmp, a, key) + WithKey(cmp, b, key)
  {
    WithKeyConcat(cmp, a + [x], b, key);
    WithKeyConcat(cmp, a, [x], key);
    WithKeyConcat(cmp, a, b, key);
    WithKeyOne(cmp, x, key);
  }

  // Deletion takes the node out of its group and leaves the other groups alone.
  lemma {:induction false} RemovedWithKey(cmp: Compare, s: seq<AvlNode>, x: AvlNode, key: Key)
    requires Distinct(s) && x in s
    ensures WithKey(cmp, Without(s, x), key) == Without(WithKey(cmp, s, key), x)
  {
    hide WithKey, Distinct, Without;
    var k :| 0 <= k < |s| && s[k] == x;
    var a, b := s[..k], s[k + 1..];
    WithoutAt(s, k);
    DistinctMinus(s, k);
    assert s == a + [x] + b;
    WithKeyAround(cmp, a, x, b, key);
    var p, q := WithKey(cmp, a, key), WithKey(cmp, b, key);
    WithKeyElems(cmp, a, key, x);
    WithKeyElems(cmp, b, key, x);
    if cmp(key, x.key) == 0 {
      WithoutMiddle(p, x, q);
    } else {
      WithoutAbsent(p + q, x);
      assert p + [] + q == p + q;
    }
  }

  lemma {:induction false} WithoutMiddle(p: seq<AvlNode>, x: AvlNode, q: seq<AvlNode>)
    requires x !in p
    ensures Without(p + [x] + q, x) == p + q
  {
    WithoutConcat(p, [x] + q, x);
    assert p + [x] + q == p + ([x] + q) && ([x] + q)[1..] == q;
  }

  lemma {:induction false} WithoutAbsent(s: seq<AvlNode>, x: AvlNode)
    requires x !in s
    ensures Without(s, x) == s
  {
    if s != [] {
      WithoutAbsent(s[1..], x);
    }
  }

  // Deleting what was just inserted leaves the list as it was.
  lemma {:induction false} InsertDelete(cmp: Compare, s: seq<AvlNode>, x: AvlNode)
    requires x !in s
    ensures Without(InsertSorted(cmp, s, x), x) == s
  {
    var k := UpperBound(cmp, s, x.key);
    WithoutMiddle(s[..k], x, s[k..]);
    assert s[..k] + s[k..] == s;
  }

  lemma {:induction false} StepKeeps(cmp: Compare, allowDups: bool, s: seq<AvlNode>, op: Op)
    requires Comparator(cmp) && Sorted(cmp, s) && Distinct(s) && Legal(s, op)
    ensures Sorted(cmp, Apply(cmp, allowDups, s, op)) && Distinct(Apply(cmp, allowDups, s, op))
  {
    hide Sorted, Distinct, Comparator, HasKey, UpperBound, Without;
    match op
    case Ins(x) =>
      var k := UpperBound(cmp, s, x.key);
      UpperBoundSplits(cmp, s, x.key);
      SplicedSorted(cmp, s, x, k);
      DistinctPlus(s, x, k);
    case Del(x) =>
      var k :| 0 <= k < |s| && s[k] == x;
      WithoutAt(s, k);
      CutSorted(cmp, s, k);
      DistinctMinus(s, k);
  }

  // After any run the list is sorted and holds no node twice.
  lemma {:induction false} RunSorted(cmp: Compare, allowDups: bool, ops: seq<Op>)
    requires Comparator(cmp) && LegalRun(cmp, allowDups, ops)
    ensures Sorted(cmp, Run(cmp, allowDups, ops)) && Distinct(Run(cmp, allowDups, ops))
  {
    if ops != [] {
      RunSorted(cmp, allowDups, ops[..|ops| - 1]);
      StepKeeps(cmp, allowDups, Run(cmp, allowDups, ops[..|ops| - 1]), ops[|ops| - 1]);
    }
  }

  // Sorted lists keep equal keys together.
  lemma {:induction false} Contiguous(cmp: Compare, s: seq<AvlNode>, key: Key, i: nat, j: nat, k: nat)
    requires Comparator(cmp) && Sorted(cmp, s) && i <= j <= k < |s|
    requires cmp(key, s[i].key) == 0 && cmp(key, s[k].key) == 0
    ensures cmp(key, s[j].key) == 0
  {
    Trans(cmp, key, s[i].key, s[j].key);
    Trans(cmp, s[j].key, s[k].key, key);
    Trans(cmp, s[k].key, key, key);
    Trans(cmp, s[i].key, s[i].key, s[j].key);
    Trans(cmp, s[j].key, s[j].key, s[k].key);
    Trans(cmp, key, s[j].key, key);
  }

  // With duplicates allowed, every key has its queue: over any run, the nodes with that key stand in the order
  // in which they were inserted.
  lemma {:induction false} RunQueues(cmp: Compare, ops: seq<Op>, key: Key)
    requires Comparator(cmp) && LegalRun(cmp, true, ops)
    ensures WithKey(cmp, Run(cmp, true, ops), key) == Queue(cmp, ops, key)
  {
    if ops != [] {
      var n := |ops| - 1;
      var s := Run(cmp, true, ops[..n]);
      RunSorted(cmp, true, ops[..n]);
      RunQueues(cmp, ops[..n], key);
      match ops[n]
      case Ins(x) => InsertedWithKey(cmp, s, x, key);
      case Del(x) => RemovedWithKey(cmp, s, x, key);
    }
  }

  lemma {:induction false} LegalPrefix(cmp: Compare, allowDups: bool, ops: seq<Op>, k: nat)
    requires LegalRun(cmp, allowDups, ops) && k <= |ops|
    ensures LegalRun(cmp, allowDups, ops[..k])
  {
    if k < |ops| {
      LegalPrefix(cmp, allowDups, ops[..|ops| - 1], k);
      assert ops[..|ops| - 1][..k] == ops[..k];
    } else {
      assert ops[..k] == ops;
    }
  }

  // The tree's methods, one after the other, do to an empty tree what Run says: at every point of the run its list is the
  // run's list and the tree over it is valid.
  method Perform(t: AvlTree, ops: seq<Op>, ghost pool: set<AvlNode>)
    requires t.Valid() && t.nodes == [] && LegalRun(t.comp, t.allowDups, ops)
    requires t.listHead !in pool && forall i :: 0 <= i < |ops| ==> ops[i].x in pool
    modifies t, t.listHead, pool
    ensures t.Valid() && t.nodes == Run(t.comp, t.allowDups, ops)
  {
    hide AvlTree.Valid, HasKey, InsertSorted, Without;
    var i := 0;
    while i < |ops|
      invariant i <= |ops| && t.Valid() && t.nodes == Run(t.comp, t.allowDups, ops[..i]) && Elems(t.nodes) <= pool
      modifies t, t.listHead, pool
    {
      LegalPrefix(t.comp, t.allowDups, ops, i + 1);
      assert ops[..i + 1][..i] == ops[..i];
      match ops[i] {
      case Ins(x) =>
        InsertedElems(t.comp, t.nodes, x);
        var rc := t.Insert(x);
      case Del(x) =>
        RemovedElems(t.nodes, x);
        t.Delete(x);
      }
      i := i + 1;
    }
    assert ops[..i] == ops;
  }

  lemma InsertedElems(cmp: Compare, s: seq<AvlNode>, x: AvlNode)
    ensures Elems(InsertSorted(cmp, s, x)) == Elems(s) + {x}
  {
    hide UpperBound;
    var k := UpperBound(cmp, s, x.key);
    assert s == s[..k] + s[k..];
  }

  lemma {:induction false} RemovedElems(s: seq<AvlNode>, x: AvlNode)
    ensures Elems(Without(s, x)) <= Elems(s)
  {
    if s != [] {
      RemovedElems(s[1..], x);
      forall y | y in Without(s, x) ensures y in s {
        var rest := s[1..];
        assert y == s[0] || y in Elems(rest);
      }
    }
  }
}
