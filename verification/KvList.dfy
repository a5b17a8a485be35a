// kvlist.c: a finite map from names to values, kept in an AVL tree without duplicate keys.
module KvLists {
  import opened Basics
  import opened AvlNodes
  import opened AvlOrder
  import opened Avl

  // strcmp, as far as its sign goes, on strings without their terminating NUL.
  function Strcmp(a: Key, b: Key): int {
    if a == [] then (if b == [] then 0 else -1)
    else if b == [] then 1
    else if a[0] != b[0] then (a[0] as int) - (b[0] as int)
    else Strcmp(a[1..], b[1..])
  }

  lemma {:induction false} StrcmpFlip(a: Key, b: Key)
    ensures Strcmp(a, b) < 0 <==> Strcmp(b, a) > 0
  {
    if a != [] && b != [] && a[0] == b[0] {
      StrcmpFlip(a[1..], b[1..]);
    }
  }

  lemma {:induction false} StrcmpTrans(a: Key, b: Key, c: Key)
    ensures Strcmp(a, b) <= 0 && Strcmp(b, c) <= 0 ==> Strcmp(a, c) <= 0
  {
    if a != [] && b != [] && c != [] && a[0] == b[0] == c[0] {
      StrcmpTrans(a[1..], b[1..], c[1..]);
    }
  }

  // The first difference decides, by the characters' codes; a string comes before its continuations.
  lemma {:induction false} StrcmpFirst(p: Key, a: Key, b: Key)
    requires a == [] || b == [] || a[0] != b[0]
    ensures a == [] && b == [] ==> Strcmp(p + a, p + b) == 0
    ensures b != [] && (a == [] || a[0] as int < b[0] as int) ==> Strcmp(p + a, p + b) < 0
    ensures a != [] && (b == [] || a[0] as int > b[0] as int) ==> Strcmp(p + a, p + b) > 0
  {
    if p == [] {
      assert p + a == a && p + b == b;
    } else {
      assert (p + a)[1..] == p[1..] + a && (p + b)[1..] == p[1..] + b;
      StrcmpFirst(p[1..], a, b);
    }
  }

  // Only a string compares equal to itself.
  lemma {:induction false} StrcmpZero(a: Key, b: Key)
    ensures Strcmp(a, b) == 0 <==> a == b
  {
    if a != [] && b != [] && a[0] == b[0] {
      StrcmpZero(a[1..], b[1..]);
      assert a == [a[0]] + a[1..] && b == [b[0]] + b[1..];
    }
  }

  // avl_strcmp meets the contract of a tree comparator.
  lemma {:induction false} StrcmpComparator()
    ensures Comparator(Strcmp)
  {
    forall a, b, c
      ensures (Strcmp(a, b) < 0 <==> Strcmp(b, a) > 0) && (Strcmp(a, b) <= 0 && Strcmp(b, c) <= 0 ==> Strcmp(a, c) <= 0)
    {
      StrcmpFlip(a, b);
      StrcmpTrans(a, b, c);
    }
  }

  ghost function Names(s: seq<AvlNode>): set<Key> {
    set x | x in s :: x.key
  }

  // The map that a list of nodes stands for.
  ghost function MapOf(s: seq<AvlNode>): map<Key, string> {
    if s == [] then map[] else MapOf(s[..|s| - 1])[s[|s| - 1].key := s[|s| - 1].data]
  }

  ghost predicate OneEach(s: seq<AvlNode>) {
    forall i, j :: 0 <= i < j < |s| ==> s[i].key != s[j].key
  }

  lemma {:induction false} MapOfKeys(s: seq<AvlNode>)
    ensures MapOf(s).Keys == Names(s)
  {
    if s != [] {
      MapOfKeys(s[..|s| - 1]);
      var y := s[|s| - 1];
      forall k ensures k in MapOf(s) <==> k in Names(s) {
        if k in Names(s) {
          var x :| x in s && x.key == k;
          assert x in s[..|s| - 1] || x == y;
        }
        if k in Names(s[..|s| - 1]) {
          var x :| x in s[..|s| - 1] && x.key == k;
          assert x in s;
        }
        assert y in s;
      }
    }
  }

  lemma {:induction false} MapOfAt(s: seq<AvlNode>, i: nat)
    requires OneEach(s) && i < |s|
    ensures s[i].key in MapOf(s) && MapOf(s)[s[i].key] == s[i].data
  {
    if i < |s| - 1 {
      MapOfAt(s[..|s| - 1], i);
    }
  }

  lemma {:induction false} NamesPlus(s: seq<AvlNode>, x: AvlNode, i: nat)
    requires OneEach(s) && i <= |s| && x.key !in Names(s)
    ensures var s' := s[..i] + [x] + s[i..]; OneEach(s') && Names(s') == Names(s) + {x.key}
  {
    var s' := s[..i] + [x] + s[i..];
    assert forall y :: y in s ==> y.key in Names(s);
    forall j, k | 0 <= j < k < |s'| ensures s'[j].key != s'[k].key {
      assert j != i ==> s'[j] in s;
      assert k != i ==> s'[k] in s;
    }
    assert forall y :: y in s' <==> y in s || y == x;
  }

  lemma {:induction false} MapOfPlus(s: seq<AvlNode>, x: AvlNode, i: nat)
    requires OneEach(s) && i <= |s| && x.key !in Names(s)
    ensures OneEach(s[..i] + [x] + s[i..]) && MapOf(s[..i] + [x] + s[i..]) == MapOf(s)[x.key := x.data]
  {
    hide MapOf, OneEach;
    var s' := s[..i] + [x] + s[i..];
    NamesPlus(s, x, i);
    MapOfKeys(s);
    MapOfKeys(s');
    var m, m' := MapOf(s)[x.key := x.data], MapOf(s');
    forall k | k in m' ensures m'[k] == m[k] {
      var y :| y in s' && y.key == k;
      var j :| 0 <= j < |s'| && s'[j] == y;
      MapOfAt(s', j);
      if j != i {
        MapOfAt(s, if j < i then j else j - 1);
        assert y in s;
      }
    }
  }

  lemma {:induction false} NamesMinus(s: seq<AvlNode>, k: nat)
    requires OneEach(s) && k < |s|
    ensures OneEach(s[..k] + s[k + 1..]) && s[k].key !in Names(s[..k] + s[k + 1..])
  {
    var s' := s[..k] + s[k + 1..];
    forall y | y in s' ensures y.key != s[k].key {
      var j :| 0 <= j < |s'| && s'[j] == y;
      assert y == s[if j < k then j else j + 1];
    }
  }

  lemma {:induction false} MapOfMinus(s: seq<AvlNode>, k: nat)
    requires OneEach(s) && k < |s|
    ensures OneEach(s[..k] + s[k + 1..]) && MapOf(s[..k] + s[k + 1..]) == MapOf(s) - {s[k].key}
  {
    hide MapOf, OneEach, Names;
    var s' := s[..k] + s[k + 1..];
    assert s == s'[..k] + [s[k]] + s'[k..];
    NamesMinus(s, k);
    MapOfPlus(s', s[k], k);
    MapOfKeys(s');
  }

  lemma {:induction false} Listed(s: seq<AvlNode>, names: seq<Key>, values: seq<string>)
    requires OneEach(s) && |names| == |values| == |s|
    requires forall i :: 0 <= i < |s| ==> names[i] == s[i].key && values[i] == s[i].data
    ensures (set n | n in names) == MapOf(s).Keys
    ensures forall i :: 0 <= i < |names| ==> names[i] in MapOf(s) && values[i] == MapOf(s)[names[i]]
  {
    hide MapOf, OneEach;
    MapOfKeys(s);
    forall i | 0 <= i < |names| ensures names[i] in MapOf(s) && values[i] == MapOf(s)[names[i]] {
      MapOfAt(s, i);
    }
    forall n | n in Names(s) ensures n in names {
      var x :| x in s && x.key == n;
      var i :| 0 <= i < |s| && s[i] == x;
      assert names[i] == n;
    }
  }

  // In a tree without duplicates that compares with strcmp, having a key equal to a name is having the name.
  lemma {:induction false} NamesOf(s: seq<AvlNode>, name: Key)
    requires Threaded(Strcmp, false, s)
    ensures OneEach(s) && (HasKey(Strcmp, s, name) <==> name in Names(s))
    ensures forall i :: 0 < i < |s| ==> Strcmp(s[i - 1].key, s[i].key) < 0
  {
    forall i | 0 < i < |s| ensures Strcmp(s[i - 1].key, s[i].key) < 0 {
      assert IsLeader(Strcmp, s, i);
    }
    forall i, j | 0 <= i < j < |s| ensures s[i].key != s[j].key {
      StrcmpComparator();
      assert Strcmp(s[j - 1].key, s[j].key) < 0;
      Trans(Strcmp, s[i].key, s[j - 1].key, s[j].key);
      StrcmpZero(s[i].key, s[j].key);
      StrcmpZero(s[i].key, s[i].key);
    }
    if HasKey(Strcmp, s, name) {
      var i :| 0 <= i < |s| && Strcmp(name, s[i].key) == 0;
      StrcmpZero(name, s[i].key);
      assert s[i] in s;
    }
    if name in Names(s) {
      var x :| x in s && x.key == name;
      var i :| 0 <= i < |s| && s[i] == x;
      StrcmpZero(name, s[i].key);
    }
  }

  // The list walk of avl_for_each_element, collecting what it visits.
  method Walk(head: AvlNode, ghost s: seq<AvlNode>) returns (names: seq<Key>, values: seq<string>)
    requires Ring(head, s)
    ensures |names| == |values| == |s|
    ensures forall i :: 0 <= i < |s| ==> names[i] == s[i].key && values[i] == s[i].data
  {
    hide Ring;
    RingForward(head, s);
    names, values := [], [];
    var node: AvlNode := head.next;
    while node != head
      invariant |names| == |values| <= |s| && node == Cell(head, s, |names| + 1)
      invariant forall i :: 0 <= i < |names| ==> names[i] == s[i].key && values[i] == s[i].data
      decreases |s| - |names|
    {
      names, values := names + [node.key], values + [node.data];
      node := node.next;
    }
  }

  class KvList {
    const avl: AvlTree

    // kvlist_init.
    constructor ()
      ensures Valid() && Contents() == map[] && fresh(avl) && fresh(avl.listHead) && Elems(avl.nodes) == {}
    {
      StrcmpComparator();
      avl := new AvlTree(Strcmp, false);
    }

    ghost predicate Valid()
      reads avl, avl.listHead, Elems(avl.nodes)
    {
      avl.Valid() && avl.comp == Strcmp && !avl.allowDups
    }

    ghost function Contents(): map<Key, string>
      reads avl
    {
      MapOf(avl.nodes)
    }

    lemma Facts(name: Key)
      requires Valid()
      ensures OneEach(avl.nodes) && Distinct(avl.nodes) && Contents().Keys == Names(avl.nodes)
      ensures HasKey(Strcmp, avl.nodes, name) <==> name in Contents()
      ensures forall i :: 0 < i < |avl.nodes| ==> Strcmp(avl.nodes[i - 1].key, avl.nodes[i].key) < 0
    {
      hide Threaded, OneEach, Ring, Comparator, Distinct, HasKey;
      avl.ListFacts();
      NamesOf(avl.nodes, name);
      MapOfKeys(avl.nodes);
    }

    lemma NodeFor(node: AvlNode, name: Key) returns (i: nat)
      requires Valid() && node in avl.nodes && Strcmp(name, node.key) == 0
      ensures i < |avl.nodes| && avl.nodes[i] == node && node.key == name
      ensures name in Contents() && Contents()[name] == node.data
    {
      StrcmpZero(name, node.key);
      i :| 0 <= i < |avl.nodes| && avl.nodes[i] == node;
      Facts(name);
      MapOfAt(avl.nodes, i);
    }

    // kvlist_get.
    method Get(name: Key) returns (data: Option<string>)
      requires Valid()
      ensures data == if name in Contents() then Some(Contents()[name]) else None
    {
      hide HasKey, MapOf, OneEach, Distinct, Ring, Threaded, Comparator;
      var node := avl.Find(name);
      Facts(name);
      if node == null {
        return None;
      }
      ghost var i := NodeFor(node, name);
      return Some(node.data);
    }

    // kvlist_delete.
    method Delete(name: Key) returns (found: bool)
      requires Valid()
      modifies avl, avl.listHead, Elems(avl.nodes)
      ensures Valid() && Elems(avl.nodes) <= old(Elems(avl.nodes))
      ensures found == (name in old(Contents())) && Contents() == old(Contents()) - {name}
    {
      hide HasKey, AvlTree.Valid, MapOf, OneEach, Distinct;
      ghost var l := avl.nodes;
      var node := avl.Find(name);
      Facts(name);
      if node != null {
        ghost var i := NodeFor(node, name);
        MapOfMinus(l, i);
        WithoutAt(l, i);
        avl.Delete(node);
      }
      return node != null;
    }

    // kvlist_set_ex: the old node for the name, if any, is replaced by a new one.
    method Set(name: Key, data: string)
      requires Valid()
      modifies avl, avl.listHead, Elems(avl.nodes)
      ensures Valid() && fresh(Elems(avl.nodes) - old(Elems(avl.nodes)))
      ensures Contents() == old(Contents())[name := data]
    {
      hide HasKey, AvlTree.Valid, MapOf, OneEach, Distinct, UpperBound;
      var node := new AvlNode(name, data);
      var found := Delete(name);
      ghost var l := avl.nodes;
      Facts(name);
      MapOfPlus(l, node, UpperBound(Strcmp, l, name));
      var rc := avl.Insert(node);
    }

    // kvlist_free.
    method Free()
      requires Valid()
      modifies avl, avl.listHead, Elems(avl.nodes)
      ensures Valid() && Contents() == map[]
    {
      hide AvlTree.Valid;
      var gone := avl.RemoveAll();
    }

    // kvlist_for_each: every entry once, in ascending order of names.
    method ForEach() returns (names: seq<Key>, values: seq<string>)
      requires Valid()
      ensures |names| == |values| && (set n | n in names) == Contents().Keys
      ensures forall i :: 0 <= i < |names| ==> names[i] in Contents() && values[i] == Contents()[names[i]]
      ensures forall i :: 0 < i < |names| ==> Strcmp(names[i - 1], names[i]) < 0
    {
      hide HasKey, AvlTree.Valid, MapOf, OneEach, Distinct, Ring, Strcmp, Threaded, Comparator;
      Facts("");
      avl.ListFacts();
      names, values := Walk(avl.listHead, avl.nodes);
      Listed(avl.nodes, names, values);
    }
  }
}
