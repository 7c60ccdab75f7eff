/** The links each node works out for itself from the list of live node ids. */
module Topology {
  import opened CString
  import opened Sorting

  /** The next link of a server: none, a connection to its successor, or one to a server that is gone. */
  datatype Link = Absent | Live | Dead

  /** Distinct ids in increasing order: the chain from head to tail. */
  ghost predicate IsChain(c: seq<Key>) {
    forall i, j {:trigger Less(c[i], c[j])} :: 0 <= i < j < |c| ==> Less(c[i], c[j])
  }

  /** y is the least id above x. */
  ghost predicate IsNext(ids: set<Key>, x: Key, y: Key) {
    && y in ids && Less(x, y)
    && forall z {:trigger z in ids} :: z in ids && Less(x, z) ==> AtMost(y, z)
  }

  /** y is the greatest id below x. */
  ghost predicate IsPrev(ids: set<Key>, x: Key, y: Key) {
    && y in ids && Less(y, x)
    && forall z {:trigger z in ids} :: z in ids && Less(z, x) ==> AtMost(z, y)
  }

  ghost function IdSet(c: seq<Key>): set<Key> {
    set k | k in c
  }

  /** The first id above x in an increasing list. */
  function NextId(c: seq<Key>, x: Key): Option<Key> {
    if c == [] then None else if Less(x, c[0]) then Some(c[0]) else NextId(c[1..], x)
  }

  /** The last id below x in an increasing list. */
  function PrevId(c: seq<Key>, x: Key): Option<Key> {
    if c == [] then None
    else if Less(c[|c| - 1], x) then Some(c[|c| - 1])
    else PrevId(c[..|c| - 1], x)
  }

  // ---------- The selection loops ----------

  /** The loop of `select_next_server` over the sorted children; none when it runs off the end. */
  method SelectNextId(children: array<Key>, self: Key) returns (next: Option<Key>)
    modifies children
    ensures Ascending(children[..]) && multiset(children[..]) == multiset(old(children[..]))
    ensures next == NextId(children[..], self)
  {
    BubbleSort(children);
    ghost var sorted := children[..];
    assert children[0..] == sorted;
    var i := 0;
    while i < children.Length
      invariant 0 <= i <= children.Length && children[..] == sorted
      invariant NextId(sorted[i..], self) == NextId(sorted, self)
    {
      assert sorted[i..][1..] == sorted[i + 1..] && sorted[i] == children[i];
      if StrCmp(children[i], self) > 0 {
        StrCmpSign(children[i], self);
        return Some(children[i]);
      }
      StrCmpSign(children[i], self);
      i := i + 1;
    }
    return None;
  }

  /** The loop of `select_prev_server`, from the greatest child down. */
  method SelectPrevId(children: array<Key>, self: Key) returns (prev: Option<Key>)
    modifies children
    ensures Ascending(children[..]) && multiset(children[..]) == multiset(old(children[..]))
    ensures prev == PrevId(children[..], self)
  {
    BubbleSort(children);
    ghost var sorted := children[..];
    var i := children.Length - 1;
    assert sorted[..i + 1] == sorted;
    while i >= 0
      invariant -1 <= i < children.Length && children[..] == sorted
      invariant PrevId(sorted[..i + 1], self) == PrevId(sorted, self)
    {
      assert sorted[..i + 1][..i] == sorted[..i] && sorted[i] == children[i];
      if StrCmp(children[i], self) < 0 {
        return Some(children[i]);
      }
      i := i - 1;
    }
    return None;
  }

  /** `select_head_and_tail_servers`: the client's head is the least child and its tail the greatest. */
  method SelectHeadAndTail(children: array<Key>) returns (ends: Option<(Key, Key)>)
    modifies children
    ensures Ascending(children[..]) && multiset(children[..]) == multiset(old(children[..]))
    ensures ends == None <==> children.Length == 0
    ensures ends.Some? ==> ends.value == (children[0], children[children.Length - 1])
  {
    BubbleSort(children);
    if children.Length > 0 {
      return Some((children[0], children[children.Length - 1]));
    }
    return None;
  }

  /** Servers that are given the same ids in any order end up with the same chain. */
  lemma EveryServerSeesTheSameChain(a: seq<Key>, b: seq<Key>)
    requires multiset(a) == multiset(b)
    requires Ascending(a) && Ascending(b) && forall k :: k in a ==> multiset(a)[k] == 1
    ensures a == b && IsChain(a)
  {
    AscendingUnique(a, b);
    forall i, j | 0 <= i < j < |a| ensures Less(a[i], a[j]) {
      assert AtMost(a[i], a[j]);
      StrCmpSign(a[i], a[j]);
      TwiceMeansTwo(a, i, j);
      assert a[i] in a;
    }
  }

  lemma TwiceMeansTwo(s: seq<Key>, i: nat, j: nat)
    requires i < j < |s|
    ensures s[i] == s[j] ==> multiset(s)[s[i]] >= 2
  {
    assert s == s[..i + 1] + s[i + 1..];
    assert s[..i + 1][i] == s[i] && s[i + 1..][j - i - 1] == s[j];
    assert s[i] in multiset(s[..i + 1]) && s[j] in multiset(s[i + 1..]);
  }

  // ---------- What the loops select ----------

  lemma {:induction false} NextIdExact(c: seq<Key>, x: Key)
    requires IsChain(c)
    ensures NextId(c, x) == None <==> forall z :: z in c ==> !Less(x, z)
    ensures NextId(c, x).Some? ==> IsNext(IdSet(c), x, NextId(c, x).value)
  {
    if c != [] {
      ChainTail(c);
      assert c == [c[0]] + c[1..];
      if Less(x, c[0]) {
        assert c[0] in c;
        AtMostReflexive(c[0]);
        assert forall j :: 0 < j < |c| ==> Less(c[0], c[j]);
      } else {
        NextIdExact(c[1..], x);
        assert IdSet(c) == IdSet(c[1..]) + {c[0]};
      }
    }
  }

  lemma {:induction false} PrevIdExact(c: seq<Key>, x: Key)
    requires IsChain(c)
    ensures PrevId(c, x) == None <==> forall z :: z in c ==> !Less(z, x)
    ensures PrevId(c, x).Some? ==> IsPrev(IdSet(c), x, PrevId(c, x).value)
  {
    if c != [] {
      var n := |c| - 1;
      assert c == c[..n] + [c[n]];
      assert IsChain(c[..n]);
      if Less(c[n], x) {
        assert c[n] in c;
        AtMostReflexive(c[n]);
        assert forall i :: 0 <= i < n ==> Less(c[i], c[n]);
      } else {
        PrevIdExact(c[..n], x);
        assert IdSet(c) == IdSet(c[..n]) + {c[n]};
      }
    }
  }

  lemma ChainTail(c: seq<Key>)
    requires IsChain(c) && c != []
    ensures IsChain(c[1..])
  {
    forall i, j | 0 <= i < j < |c[1..]| ensures Less(c[1..][i], c[1..][j]) {
      assert Less(c[i + 1], c[j + 1]);
    }
  }

  lemma IsNextUnique(ids: set<Key>, x: Key, y: Key, y': Key)
    requires IsNext(ids, x, y) && IsNext(ids, x, y')
    ensures y == y'
  {
    AtMostOrder(y, y', y);
  }

  lemma IsPrevUnique(ids: set<Key>, x: Key, y: Key, y': Key)
    requires IsPrev(ids, x, y) && IsPrev(ids, x, y')
    ensures y == y'
  {
    AtMostOrder(y, y', y);
  }

  /** Successor and predecessor are inverse to each other on the live ids. */
  lemma LinksAreInverse(ids: set<Key>, x: Key, y: Key)
    requires x in ids && y in ids
    ensures IsNext(ids, x, y) <==> IsPrev(ids, y, x)
  {
    if IsNext(ids, x, y) {
      forall z | z in ids && Less(z, y) ensures AtMost(z, x) {
        BetweenNone(x, z, y);
      }
    }
    if IsPrev(ids, y, x) {
      forall z | z in ids && Less(x, z) ensures AtMost(y, z) {
        BetweenNone(x, z, y);
      }
    }
  }

  lemma BetweenNone(x: Key, z: Key, y: Key)
    ensures (Less(x, z) ==> AtMost(y, z)) <==> (Less(z, y) ==> AtMost(z, x))
  {
    StrCmpSign(x, z);
    StrCmpSign(y, z);
  }

  // ---------- One chain from head to tail ----------

  /** In a chain the neighbours by position are the neighbours by id. */
  lemma LinksFollowPositions(c: seq<Key>, i: nat)
    requires IsChain(c) && i < |c|
    ensures NextId(c, c[i]) == if i + 1 < |c| then Some(c[i + 1]) else None
    ensures PrevId(c, c[i]) == if i > 0 then Some(c[i - 1]) else None
  {
    NextIdExact(c, c[i]);
    PrevIdExact(c, c[i]);
    NotLess(c, i);
    if i + 1 < |c| {
      assert Less(c[i], c[i + 1]) && c[i + 1] in c;
      IsNextUnique(IdSet(c), c[i], c[i + 1], NextId(c, c[i]).value) by {
        NeighbourIsNext(c, i);
      }
    }
    if i > 0 {
      assert Less(c[i - 1], c[i]) && c[i - 1] in c;
      IsPrevUnique(IdSet(c), c[i], c[i - 1], PrevId(c, c[i]).value) by {
        NeighbourIsNext(c, i - 1);
        LinksAreInverse(IdSet(c), c[i - 1], c[i]);
      }
    }
  }

  lemma NotLess(c: seq<Key>, i: nat)
    requires IsChain(c) && i < |c|
    ensures forall j :: 0 <= j <= i ==> !Less(c[i], c[j])
    ensures forall j :: i <= j < |c| ==> !Less(c[j], c[i])
  {
    forall j | 0 <= j < |c| ensures (j <= i ==> !Less(c[i], c[j])) && (i <= j ==> !Less(c[j], c[i])) {
      StrCmpSign(c[i], c[j]);
      assert j < i ==> Less(c[j], c[i]);
      assert i < j ==> Less(c[i], c[j]);
    }
  }

  lemma NeighbourIsNext(c: seq<Key>, i: nat)
    requires IsChain(c) && i + 1 < |c|
    ensures IsNext(IdSet(c), c[i], c[i + 1])
  {
    assert Less(c[i], c[i + 1]);
    NotLess(c, i);
    forall z | z in IdSet(c) && Less(c[i], z) ensures AtMost(c[i + 1], z) {
      var j :| 0 <= j < |c| && c[j] == z;
      AtMostReflexive(z);
      assert j > i + 1 ==> Less(c[i + 1], c[j]);
    }
  }

  /** How many ids are above x: it shrinks along every link. */
  function Above(c: seq<Key>, x: Key): nat {
    if c == [] then 0 else (if Less(x, c[0]) then 1 else 0) + Above(c[1..], x)
  }

  lemma {:induction false} LinkShrinksAbove(c: seq<Key>, x: Key, y: Key)
    requires Less(x, y)
    ensures Above(c, y) <= Above(c, x)
    ensures y in c ==> Above(c, y) < Above(c, x)
  {
    if c != [] {
      LinkShrinksAbove(c[1..], x, y);
      assert c == [c[0]] + c[1..];
      StrCmpSign(c[0], c[0]);
      if Less(y, c[0]) {
        LessTransitive(x, y, c[0]);
      }
    }
  }

  lemma {:induction false} NextIdIsAbove(c: seq<Key>, x: Key)
    ensures NextId(c, x).Some? ==> Less(x, NextId(c, x).value) && NextId(c, x).value in c
  {
    if c != [] && !Less(x, c[0]) {
      NextIdIsAbove(c[1..], x);
    }
  }

  lemma {:induction false} PrevIdIsBelow(c: seq<Key>, x: Key)
    ensures PrevId(c, x).Some? ==> Less(PrevId(c, x).value, x) && PrevId(c, x).value in c
  {
    if c != [] && !Less(c[|c| - 1], x) {
      PrevIdIsBelow(c[..|c| - 1], x);
    }
  }

  /** The ids visited by following next links from x. */
  ghost function Walk(c: seq<Key>, x: Key): seq<Key>
    decreases Above(c, x)
  {
    match NextId(c, x)
    case None => [x]
    case Some(y) =>
      NextIdIsAbove(c, x);
      LinkShrinksAbove(c, x, y);
      [x] + Walk(c, y)
  }

  /** Following links from any node visits the rest of the chain in order; from the client's head it
      visits every node once and stops at the client's tail. */
  lemma {:induction false} WalkVisitsTheChain(c: seq<Key>, i: nat)
    requires IsChain(c) && i < |c|
    ensures Walk(c, c[i]) == c[i..]
    decreases |c| - i
  {
    LinksFollowPositions(c, i);
    if i + 1 < |c| {
      WalkVisitsTheChain(c, i + 1);
      assert c[i..] == [c[i]] + c[i + 1..];
    }
  }

  // ---------- Membership changes ----------

  /** When the node at position i leaves, only its predecessor's next link and its successor's
      previous link change, and those two are joined. */
  lemma LeavingSplicesTheChain(c: seq<Key>, i: nat, x: Key)
    requires IsChain(c) && i < |c|
    requires x in c && x != c[i]
    ensures var d := c[..i] + c[i + 1..];
            && IsChain(d)
            && NextId(d, x) == (if NextId(c, x) == Some(c[i]) then NextId(c, c[i]) else NextId(c, x))
            && PrevId(d, x) == (if PrevId(c, x) == Some(c[i]) then PrevId(c, c[i]) else PrevId(c, x))
  {
    hide NextId, PrevId, Less;
    var d := c[..i] + c[i + 1..];
    assert forall k :: 0 <= k < |d| ==> d[k] == c[if k < i then k else k + 1];
    assert IsChain(d) by {
      forall p, q | 0 <= p < q < |d| ensures Less(d[p], d[q]) {
        assert Less(c[if p < i then p else p + 1], c[if q < i then q else q + 1]);
      }
    }
    var j :| 0 <= j < |c| && c[j] == x;
    var k := if j < i then j else j - 1;
    LinksFollowPositions(c, i);
    LinksFollowPositions(c, j);
    LinksFollowPositions(d, k);
    PositionsDiffer(c, i, j + 1);
    PositionsDiffer(c, i, j - 1);
  }

  lemma PositionsDiffer(c: seq<Key>, i: nat, j: int)
    requires IsChain(c) && i < |c|
    ensures 0 <= j < |c| && c[i] == c[j] ==> i == j
  {
    if 0 <= j < |c| {
      StrCmpSign(c[i], c[j]);
      assert i < j ==> Less(c[i], c[j]);
      assert j < i ==> Less(c[j], c[i]);
    }
  }

  /** A node that joins with the greatest id becomes the tail; only the old tail's next link changes. */
  lemma JoiningAppendsTheTail(c: seq<Key>, z: Key, x: Key)
    requires IsChain(c) && x in c
    requires forall k :: k in c ==> Less(k, z)
    ensures IsChain(c + [z])
    ensures NextId(c + [z], x) == (if NextId(c, x) == None then Some(z) else NextId(c, x))
    ensures PrevId(c + [z], x) == PrevId(c, x)
    ensures NextId(c + [z], z) == None && PrevId(c + [z], z) == Some(c[|c| - 1])
  {
    var d := c + [z];
    assert IsChain(d) by {
      forall p, q | 0 <= p < q < |d| ensures Less(d[p], d[q]) {
        assert q < |c| ==> Less(c[p], c[q]);
      }
    }
    var j :| 0 <= j < |c| && c[j] == x;
    LinksFollowPositions(c, j);
    LinksFollowPositions(d, j);
    LinksFollowPositions(d, |c|);
  }
}
