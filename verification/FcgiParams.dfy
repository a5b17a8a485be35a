// Name-value pairs (section 3.4 of the FastCGI Specification 1.0) and the vector that collects them.
module FcgiParams {
  import opened Basics
  import opened FcgiRecords

  const EQUALS: Byte := 61

  // --- The vector of strings ---

  // Params: vec[..cur] are the strings so far, vec[cur] is the terminating null.
  class Params {
    var vec: array<Option<seq<Byte>>>
    var cur: nat

    ghost predicate Valid()
      reads this, vec
    {
      cur < vec.Length && vec[cur].None? && forall i :: 0 <= i < cur ==> vec[i].Some?
    }

    // The strings up to the terminating null.
    ghost function Strings(): seq<seq<Byte>>
      requires Valid()
      reads this, vec
    {
      seq(cur, i requires 0 <= i < cur && Valid() reads this, vec => vec[i].value)
    }

    // NewParams.
    constructor (length: nat)
      requires length > 0
      ensures Valid() && Strings() == [] && fresh(vec)
    {
      vec := new Option<seq<Byte>>[length](i => None);
      cur := 0;
    }

    // PutParam: the vector doubles when the terminating null would not fit behind the new string.
    method PutParam(nameValue: seq<Byte>)
      requires Valid()
      modifies this, vec
      ensures Valid() && (vec == old(vec) || fresh(vec))
      ensures Strings() == old(Strings()) + [nameValue]
      ensures vec.Length == if old(cur) + 1 >= old(vec.Length) then 2 * old(vec.Length) else old(vec.Length)
    {
      vec[cur] := Some(nameValue);
      cur := cur + 1;
      if cur >= vec.Length {
        var longer := new Option<seq<Byte>>[2 * vec.Length](i => None);
        forall i | 0 <= i < vec.Length {
          longer[i] := vec[i];
        }
        vec := longer;
      }
      vec[cur] := None;
    }
  }

  // --- Reading pairs off a sequence of bytes ---

  function Number(a: nat, b: nat, c: nat, d: nat): nat {
    a * 0x100_0000 + b * 0x1_0000 + c * 0x100 + d
  }

  // A length in its one-byte or its four-byte form, and what follows it.
  function ReadLength(s: seq<Byte>): Option<(nat, seq<Byte>)> {
    if s == [] then None
    else if s[0] < 128 then Some((s[0], s[1..]))
    else if |s| < 4 then None
    else Some((Number(s[0] - 128, s[1], s[2], s[3]), s[4..]))
  }

  // One pair as name=value, and what follows it.
  function ReadPair(s: seq<Byte>): Option<(seq<Byte>, seq<Byte>)> {
    match ReadLength(s)
    case None => None
    case Some((n, s1)) =>
      match ReadLength(s1)
      case None => None
      case Some((v, s2)) =>
        if |s2| < n + v then None
        else Some((s2[..n] + [EQUALS] + s2[n..n + v], s2[n + v..]))
  }

  lemma {:induction false} PairSome(s: seq<Byte>, s1: seq<Byte>, d: seq<Byte>, name: seq<Byte>, value: seq<Byte>, rest: seq<Byte>)
    requires ReadLength(s) == Some((|name|, s1)) && ReadLength(s1) == Some((|value|, d)) && d == name + (value + rest)
    ensures ReadPair(s) == Some((name + [EQUALS] + value, rest))
  {
    hide ReadLength;
    assert d == name + value + rest;
    assert d[..|name|] == name && d[|name|..|name| + |value|] == value && d[|name| + |value|..] == rest;
  }

  lemma {:induction false} PairNone(s: seq<Byte>, n: nat, s1: seq<Byte>, v: nat, d: seq<Byte>)
    ensures ReadLength(s) == None ==> ReadPair(s) == None
    ensures ReadLength(s) == Some((n, s1)) && ReadLength(s1) == None ==> ReadPair(s) == None
    ensures ReadLength(s) == Some((n, s1)) && ReadLength(s1) == Some((v, d)) && |d| < n + v ==> ReadPair(s) == None
  {
    hide ReadLength;
  }

  lemma ReadPairShorter(s: seq<Byte>)
    ensures ReadPair(s).Some? ==> |ReadPair(s).value.1| < |s|
  {}

  // The complete pairs, and whether nothing but complete pairs was there.
  function ReadPairs(s: seq<Byte>): (seq<seq<Byte>>, bool)
    decreases |s|
  {
    if s == [] then ([], true)
    else
      ReadPairShorter(s);
      match ReadPair(s)
      case None => ([], false)
      case Some((entry, rest)) =>
        var (entries, whole) := ReadPairs(rest);
        ([entry] + entries, whole)
  }

  lemma LengthOfNothing()
    ensures ReadLength([]) == None
  {}

  lemma PairsOfNothing()
    ensures ReadPairs([]) == ([], true)
  {}

  lemma PairsOfNone(s: seq<Byte>)
    ensures s != [] && ReadPair(s).None? ==> ReadPairs(s) == ([], false)
  {}

  lemma PairsOfSome(s: seq<Byte>)
    ensures s != [] && ReadPair(s).Some? ==>
              var (entry, rest) := ReadPair(s).value;
              ReadPairs(s) == ([entry] + ReadPairs(rest).0, ReadPairs(rest).1)
  {}

  // --- Writing pairs ---

  // Each length may take four bytes even where one would do.
  datatype Pair = Pair(name: seq<Byte>, value: seq<Byte>, longName: bool, longValue: bool)

  predicate Lengths(p: Pair) {
    && |p.name| < 0x8000_0000 && |p.value| < 0x8000_0000
    && (|p.name| >= 128 ==> p.longName) && (|p.value| >= 128 ==> p.longValue)
  }

  function EncodeLength(n: nat, long: bool): seq<Byte>
    requires n < 0x8000_0000 && (n >= 128 ==> long)
  {
    if long then [128 + n / 0x100_0000, n / 0x1_0000 % 0x100, n / 0x100 % 0x100, n % 0x100] else [n]
  }

  function EncodePair(p: Pair): seq<Byte>
    requires Lengths(p)
  {
    EncodeLength(|p.name|, p.longName) + EncodeLength(|p.value|, p.longValue) + p.name + p.value
  }

  function EncodePairs(ps: seq<Pair>): seq<Byte>
    requires forall i :: 0 <= i < |ps| ==> Lengths(ps[i])
  {
    if ps == [] then [] else EncodePair(ps[0]) + EncodePairs(ps[1..])
  }

  function Entries(ps: seq<Pair>): (r: seq<seq<Byte>>)
    ensures |r| == |ps| && forall i :: 0 <= i < |ps| ==> r[i] == Entry(ps[i])
  {
    if ps == [] then [] else [Entry(ps[0])] + Entries(ps[1..])
  }

  // One byte below 128, or four with the highest bit set and the high byte first (section 3.4 of the FastCGI
  // Specification 1.0).
  lemma {:induction false} LengthOnWire(n: nat, long: bool)
    requires n < 0x8000_0000 && (n >= 128 ==> long)
    ensures var s := EncodeLength(n, long);
            if long then |s| == 4 && s[0] >= 128 && Four(s[0] - 128, s[1], s[2], s[3]) == n else s == [n]
  {
    LengthDigits(n);
  }

  lemma {:induction false} LengthDigits(n: nat)
    requires n < 0x8000_0000
    ensures n / 0x100_0000 < 128
    ensures Number(n / 0x100_0000, n / 0x1_0000 % 0x100, n / 0x100 % 0x100, n % 0x100) == n
  {
    assert n / 0x100 / 0x100 == n / 0x1_0000 && n / 0x1_0000 / 0x100 == n / 0x100_0000;
  }

  lemma {:induction false} LengthBack(n: nat, long: bool, rest: seq<Byte>)
    requires n < 0x8000_0000 && (n >= 128 ==> long)
    ensures ReadLength(EncodeLength(n, long) + rest) == Some((n, rest))
  {
    LengthDigits(n);
    var e := EncodeLength(n, long);
    assert (e + rest)[|e|..] == rest;
  }

  lemma {:induction false} PairBack(p: Pair, rest: seq<Byte>)
    requires Lengths(p)
    ensures ReadPair(EncodePair(p) + rest) == Some((p.name + [EQUALS] + p.value, rest))
  {
    hide ReadLength, EncodeLength;
    var n, v := EncodeLength(|p.name|, p.longName), EncodeLength(|p.value|, p.longValue);
    var s2 := p.name + p.value + rest;
    assert EncodePair(p) + rest == n + (v + s2);
    LengthBack(|p.name|, p.longName, v + s2);
    LengthBack(|p.value|, p.longValue, s2);
    assert s2[..|p.name|] == p.name && s2[|p.name|..|p.name| + |p.value|] == p.value && s2[|p.name| + |p.value|..] == rest;
  }

  function Entry(p: Pair): seq<Byte> {
    p.name + [EQUALS] + p.value
  }

  lemma {:induction false} OnePairBack(p: Pair, s: seq<Byte>)
    requires Lengths(p)
    ensures ReadPairs(EncodePair(p) + s) == ([Entry(p)] + ReadPairs(s).0, ReadPairs(s).1)
  {
    hide ReadPair, EncodePair, Lengths;
    PairNotEmpty(p);
    PairBack(p, s);
  }

  // Every list of pairs reads back as its strings name=value, in order.
  lemma {:induction false} PairsBack(ps: seq<Pair>, rest: seq<Byte>)
    requires forall i :: 0 <= i < |ps| ==> Lengths(ps[i])
    ensures ReadPairs(EncodePairs(ps) + rest) == (Entries(ps) + ReadPairs(rest).0, ReadPairs(rest).1)
  {
    hide ReadPairs, EncodePair, Lengths, Entry;
    if ps == [] {
      assert EncodePairs(ps) + rest == rest;
      assert Entries(ps) + ReadPairs(rest).0 == ReadPairs(rest).0;
    } else {
      var e, s := EncodePair(ps[0]), EncodePairs(ps[1..]) + rest;
      assert EncodePairs(ps) + rest == e + s;
      OnePairBack(ps[0], s);
      PairsBack(ps[1..], rest);
      Associative([Entry(ps[0])], Entries(ps[1..]), ReadPairs(rest).0);
    }
  }

  lemma Associative<T>(a: seq<T>, b: seq<T>, c: seq<T>)
    ensures a + b + c == a + (b + c)
  {}

  lemma {:induction false} PairNotEmpty(p: Pair)
    requires Lengths(p)
    ensures EncodePair(p) != []
  {}

  lemma {:induction false} LengthCut(n: nat, long: bool, k: nat)
    requires n < 0x8000_0000 && (n >= 128 ==> long) && k < |EncodeLength(n, long)|
    ensures ReadLength(EncodeLength(n, long)[..k]) == None
  {}

  // A pair that is cut short anywhere is no pair.
  lemma {:induction false} PairCut(p: Pair, k: nat)
    requires Lengths(p) && k < |EncodePair(p)|
    ensures ReadPair(EncodePair(p)[..k]) == None
  {
    hide ReadLength, EncodeLength;
    var n, v := EncodeLength(|p.name|, p.longName), EncodeLength(|p.value|, p.longValue);
    var s := EncodePair(p)[..k];
    if k < |n| {
      assert s == n[..k];
      LengthCut(|p.name|, p.longName, k);
    } else {
      var s1 := (v + p.name + p.value)[..k - |n|];
      assert s == n + s1;
      LengthBack(|p.name|, p.longName, s1);
      if k - |n| < |v| {
        assert s1 == v[..k - |n|];
        LengthCut(|p.value|, p.longValue, k - |n|);
      } else {
        var s2 := (p.name + p.value)[..k - |n| - |v|];
        assert s1 == v + s2;
        LengthBack(|p.value|, p.longValue, s2);
      }
    }
  }

  // Pairs cut short inside a pair: the complete ones are read, and the loss is noticed.
  lemma {:induction false} PairsCut(ps: seq<Pair>, p: Pair, k: nat)
    requires (forall i :: 0 <= i < |ps| ==> Lengths(ps[i])) && Lengths(p) && 0 < k < |EncodePair(p)|
    ensures ReadPairs(EncodePairs(ps) + EncodePair(p)[..k]) == (Entries(ps), false)
  {
    PairCut(p, k);
    PairsBack(ps, EncodePair(p)[..k]);
    assert Entries(ps) + [] == Entries(ps);
  }

  lemma {:induction false} FirstPairs(ps: seq<Pair>, j: nat)
    requires (forall i :: 0 <= i < |ps| ==> Lengths(ps[i])) && ps != [] && 1 <= j <= |ps|
    ensures EncodePairs(ps[..j]) == EncodePair(ps[0]) + EncodePairs(ps[1..][..j - 1])
  {
    assert ps[..j][0] == ps[0] && ps[..j][1..] == ps[1..][..j - 1];
  }

  // A beginning of some pairs is whole exactly if it ends between two of them.
  lemma {:induction false} PairsBegun(ps: seq<Pair>, d: seq<Byte>)
    requires (forall i :: 0 <= i < |ps| ==> Lengths(ps[i])) && d <= EncodePairs(ps)
    ensures ReadPairs(d).1 <==> exists j :: 0 <= j <= |ps| && d == EncodePairs(ps[..j])
    ensures forall j :: 0 <= j <= |ps| && d == EncodePairs(ps[..j]) ==> ReadPairs(d).0 == Entries(ps[..j])
  {
    hide ReadPairs, EncodePair, Lengths;
    PairsOfNothing();
    assert EncodePairs(ps[..0]) == [];
    forall j | 0 <= j <= |ps| && d == EncodePairs(ps[..j]) ensures ReadPairs(d) == (Entries(ps[..j]), true) {
      PairsBack(ps[..j], []);
      assert d + [] == d && Entries(ps[..j]) + [] == Entries(ps[..j]);
    }
    if d != [] {
      PairsBegunMore(ps, d);
    }
  }

  lemma {:induction false} PairsBegunMore(ps: seq<Pair>, d: seq<Byte>)
    requires (forall i :: 0 <= i < |ps| ==> Lengths(ps[i])) && d <= EncodePairs(ps) && d != []
    ensures ReadPairs(d).1 ==> exists j :: 0 <= j <= |ps| && d == EncodePairs(ps[..j])
  {
    hide ReadPairs, EncodePair, Lengths;
    var e, rest := EncodePair(ps[0]), EncodePairs(ps[1..]);
    assert EncodePairs(ps) == e + rest;
    if |d| < |e| {
      assert d == e[..|d|];
      PairCut(ps[0], |d|);
      PairsOfNone(d);
    } else {
      var d' := d[|e|..];
      assert d == e + d' && d' <= rest;
      OnePairBack(ps[0], d');
      if d' == [] {
        FirstPairs(ps, 1);
        assert EncodePairs(ps[1..][..0]) == [] && d == EncodePairs(ps[..1]);
      } else {
        PairsBegunMore(ps[1..], d');
        if ReadPairs(d').1 {
          var j :| 0 <= j <= |ps[1..]| && d' == EncodePairs(ps[1..][..j]);
          FirstPairs(ps, j + 1);
        }
      }
    }
  }
}
