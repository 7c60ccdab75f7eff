/** The in-place bubble sort that puts the children list in `strcmp` order. */
module Sorting {
  import opened CString

  predicate AtMost(a: Key, b: Key) {
    StrCmp(a, b) <= 0
  }

  lemma AtMostOrder(a: Key, b: Key, c: Key)
    ensures AtMost(a, b) || AtMost(b, a)
    ensures AtMost(a, b) && AtMost(b, a) ==> a == b
    ensures AtMost(a, b) && AtMost(b, c) ==> AtMost(a, c)
  {
    StrCmpSign(a, b);
    StrCmpSign(b, c);
    if Less(a, b) && Less(b, c) {
      LessTransitive(a, b, c);
    }
  }

  ghost predicate Ascending(s: seq<Key>) {
    forall i, j {:trigger AtMost(s[i], s[j])} :: 0 <= i <= j < |s| ==> AtMost(s[i], s[j])
  }

  /** The first n slots hold the n smallest elements, in order. */
  ghost predicate Settled(s: seq<Key>, n: int) {
    forall i, j {:trigger AtMost(s[i], s[j])} :: 0 <= i < n && i <= j < |s| ==> AtMost(s[i], s[j])
  }

  /** The element at position k is no greater than any behind it. */
  ghost predicate LeastFrom(s: seq<Key>, k: int) {
    0 <= k < |s| && forall j {:trigger AtMost(s[k], s[j])} :: k <= j < |s| ==> AtMost(s[k], s[j])
  }

  method Swap(a: array<Key>, p: int, q: int)
    requires 0 <= p < a.Length && 0 <= q < a.Length
    modifies a
    ensures a[..] == old(a[..])[p := old(a[q])][q := old(a[p])]
  {
    var temp := a[p];
    a[p] := a[q];
    a[q] := temp;
  }

  method BubbleSort(a: array<Key>)
    modifies a
    ensures Ascending(a[..])
    ensures multiset(a[..]) == multiset(old(a[..]))
  {
    hide AtMost;
    var i := 0;
    while i < a.Length - 1
      invariant 0 <= i <= a.Length
      invariant a.Length > 0 ==> i <= a.Length - 1
      invariant Settled(a[..], i)
      invariant multiset(a[..]) == multiset(old(a[..]))
    {
      var j := a.Length - 1;
      AtMostReflexive(a[j]);
      while j > i
        invariant i <= j < a.Length
        invariant Settled(a[..], i) && LeastFrom(a[..], j)
        invariant multiset(a[..]) == multiset(old(a[..]))
      {
        ghost var s := a[..];
        BubbleDown(s, i, j);
        if StrCmp(a[j - 1], a[j]) > 0 {
          Swap(a, j - 1, j);
        }
        j := j - 1;
      }
      SettledGrows(a[..], i);
      i := i + 1;
    }
    SettledIsAscending(a[..], i);
  }

  lemma AtMostReflexive(k: Key)
    ensures AtMost(k, k)
  {
    AtMostOrder(k, k, k);
  }

  /** One comparison of neighbours moves the least element of the tail one slot down. */
  lemma BubbleDown(s: seq<Key>, i: int, j: int)
    requires 0 <= i < j < |s| && Settled(s, i) && LeastFrom(s, j)
    ensures StrCmp(s[j - 1], s[j]) <= 0 ==> LeastFrom(s, j - 1)
    ensures StrCmp(s[j - 1], s[j]) > 0 ==>
              var t := s[j - 1 := s[j]][j := s[j - 1]];
              LeastFrom(t, j - 1) && Settled(t, i) && multiset(t) == multiset(s)
  {
    AtMostOrder(s[j - 1], s[j], s[j]);
    AtMostReflexive(s[j - 1]);
    AtMostReflexive(s[j]);
    if StrCmp(s[j - 1], s[j]) <= 0 {
      forall k | j <= k < |s| ensures AtMost(s[j - 1], s[k]) {
        assert AtMost(s[j], s[k]);
        AtMostOrder(s[j - 1], s[j], s[k]);
      }
    } else {
      var t := s[j - 1 := s[j]][j := s[j - 1]];
      forall k | j - 1 <= k < |t| ensures AtMost(t[j - 1], t[k]) {
        if k > j {
          assert AtMost(s[j], s[k]);
        }
      }
      forall p, q | 0 <= p < i && p <= q < |t| ensures AtMost(t[p], t[q]) {
        assert AtMost(s[p], s[j - 1]) && AtMost(s[p], s[j]) && AtMost(s[p], s[q]);
      }
    }
  }

  lemma SettledGrows(s: seq<Key>, i: int)
    requires Settled(s, i) && LeastFrom(s, i)
    ensures Settled(s, i + 1)
  {
  }

  lemma SettledIsAscending(s: seq<Key>, n: int)
    requires Settled(s, n) && n >= |s| - 1
    ensures Ascending(s)
  {
    if s != [] {
      AtMostReflexive(s[|s| - 1]);
    }
  }

  // ---------- One result, whatever the order of the input ----------

  lemma {:induction false} AscendingUnique(s: seq<Key>, t: seq<Key>)
    requires Ascending(s) && Ascending(t) && multiset(s) == multiset(t)
    ensures s == t
  {
    hide AtMost;
    SameLength(s, t);
    if s != [] {
      FirstAtMost(s, t);
      FirstAtMost(t, s);
      AtMostOrder(s[0], t[0], t[0]);
      TailMultiset(s);
      TailMultiset(t);
      TailAscending(s);
      TailAscending(t);
      AscendingUnique(s[1..], t[1..]);
    }
  }

  lemma TailMultiset(s: seq<Key>)
    requires s != []
    ensures s == [s[0]] + s[1..]
    ensures multiset(s[1..]) == multiset(s) - multiset{s[0]}
  {
    assert s == [s[0]] + s[1..];
  }

  lemma SameLength(s: seq<Key>, t: seq<Key>)
    requires multiset(s) == multiset(t)
    ensures |s| == |t|
  {
    assert |multiset(s)| == |s| && |multiset(t)| == |t|;
  }

  lemma FirstAtMost(s: seq<Key>, t: seq<Key>)
    requires Ascending(s) && s != [] && t != [] && multiset(s) == multiset(t)
    ensures AtMost(s[0], t[0])
  {
    assert t[0] in multiset(s);
    var j :| 0 <= j < |s| && s[j] == t[0];
    assert AtMost(s[0], s[j]);
  }

  lemma TailAscending(s: seq<Key>)
    requires Ascending(s) && s != []
    ensures Ascending(s[1..])
  {
    forall i, j | 0 <= i <= j < |s[1..]| ensures AtMost(s[1..][i], s[1..][j]) {
      assert AtMost(s[i + 1], s[j + 1]);
    }
  }
}
