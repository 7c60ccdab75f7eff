/** The rows of a hash table as plain values, and the map they stand for. */
module Buckets {
  import opened CString
  import opened EntrySeq

  type Rows = seq<seq<Entry>>

  /** The rows are sorted and valid, each entry sits in the row its key hashes to,
      and together they hold exactly the entries of the map. */
  ghost predicate Represents(b: Rows, m: map<Key, Value>) {
    && |b| > 0
    && (forall r :: 0 <= r < |b| ==> Ordered(b[r]))
    && (forall r, e {:trigger e in b[r]} :: 0 <= r < |b| && e in b[r] ==>
                                          HashCode(e.key, |b|) == r && e.key in m && m[e.key] == e.value)
    && (forall k :: k in m ==> 0 <= HashCode(k, |b|) < |b| && Entry(k, m[k]) in b[HashCode(k, |b|)])
  }

  lemma EmptyRepresents(b: Rows)
    requires |b| > 0 && forall r :: 0 <= r < |b| ==> b[r] == []
    ensures Represents(b, map[])
  {
  }

  /** A key is in the map exactly when its row has it, with the map's value. */
  lemma RowDecides(b: Rows, m: map<Key, Value>, k: Key)
    requires Represents(b, m) && 0 <= HashCode(k, |b|) < |b|
    ensures HasKey(b[HashCode(k, |b|)], k) <==> k in m
  {
    var row := b[HashCode(k, |b|)];
    if HasKey(row, k) {
      var i :| 0 <= i < |row| && row[i].key == k;
      assert row[i] in row;
    }
    if k in m {
      var i :| 0 <= i < |row| && row[i] == Entry(k, m[k]);
      assert row[i].key == k;
    }
  }

  /** One insertion in the key's row changes the map at that key only. */
  lemma InsertRepresents(b: Rows, m: map<Key, Value>, e: Entry)
    requires Represents(b, m) && ValueOk(e.value)
    requires 0 <= HashCode(e.key, |b|) < |b|
    ensures var h := HashCode(e.key, |b|);
            Represents(b[h := Insert(b[h], e)], m[e.key := e.value])
  {
    var h := HashCode(e.key, |b|);
    var c, n := b[h := Insert(b[h], e)], m[e.key := e.value];
    InsertSorted(b[h], e);
    forall x: Entry ensures x in c[h] <==> x == e || (x in b[h] && x.key != e.key) {
      InsertMembers(b[h], e, x);
    }
    forall r, x: Entry | 0 <= r < |c| && x in c[r]
      ensures HashCode(x.key, |c|) == r && x.key in n && n[x.key] == x.value
    {
      if r != h {
        assert x in b[r];
      }
    }
    forall k | k in n
      ensures 0 <= HashCode(k, |c|) < |c| && Entry(k, n[k]) in c[HashCode(k, |c|)]
    {
      if k != e.key {
        assert k in m && Entry(k, m[k]) in b[HashCode(k, |b|)];
      }
    }
  }

  lemma DeleteRepresents(b: Rows, m: map<Key, Value>, k: Key)
    requires Represents(b, m)
    requires 0 <= HashCode(k, |b|) < |b|
    ensures var h := HashCode(k, |b|);
            Represents(b[h := Delete(b[h], k)], m - {k})
  {
    hide Delete, HashCode, Less;
    var h := HashCode(k, |b|);
    var c, n := b[h := Delete(b[h], k)], m - {k};
    DeleteSorted(b[h], k);
    forall r, x: Entry | 0 <= r < |c| && x in c[r]
      ensures HashCode(x.key, |c|) == r && x.key in n && n[x.key] == x.value
    {
      DeleteMembers(b[h], k, x);
      assert x in b[r];
    }
    forall q | q in n
      ensures 0 <= HashCode(q, |c|) < |c| && Entry(q, n[q]) in c[HashCode(q, |c|)]
    {
      DeleteMembers(b[h], k, Entry(q, m[q]));
      assert q in m && Entry(q, m[q]) in b[HashCode(q, |b|)];
    }
  }

  /** What `table_put` does to the rows, to the map and to the number of keys. */
  lemma AfterPut(b: Rows, m: map<Key, Value>, e: Entry) returns (after: map<Key, Value>)
    requires Represents(b, m) && ValueOk(e.value)
    requires 0 <= HashCode(e.key, |b|) < |b|
    ensures after == m[e.key := e.value]
    ensures var h := HashCode(e.key, |b|);
            && Represents(b[h := Insert(b[h], e)], after)
            && |after| == if HasKey(b[h], e.key) then |m| else |m| + 1
  {
    after := m[e.key := e.value];
    InsertRepresents(b, m, e);
    RowDecides(b, m, e.key);
  }

  /** What `table_remove` does to the rows, to the map and to the number of keys. */
  lemma AfterRemove(b: Rows, m: map<Key, Value>, k: Key) returns (after: map<Key, Value>)
    requires Represents(b, m)
    requires 0 <= HashCode(k, |b|) < |b|
    ensures after == m - {k}
    ensures var h := HashCode(k, |b|);
            && Represents(b[h := Delete(b[h], k)], after)
            && |after| == (if HasKey(b[h], k) then |m| - 1 else |m|)
            && (HasKey(b[h], k) <==> k in m)
  {
    after := m - {k};
    assert k in m ==> after.Keys == m.Keys - {k};
    assert k !in m ==> after == m;
    DeleteRepresents(b, m, k);
    RowDecides(b, m, k);
  }

  /** The layout depends on the map and the number of rows only, not on how it came about. */
  lemma LayoutIsCanonical(b: Rows, c: Rows, m: map<Key, Value>)
    requires Represents(b, m) && Represents(c, m) && |b| == |c|
    ensures b == c
  {
    forall r | 0 <= r < |b| ensures b[r] == c[r] {
      forall x: Entry ensures x in b[r] <==> x in c[r] {
        assert x in b[r] ==> x.key in m && m[x.key] == x.value && Entry(x.key, m[x.key]) in c[r];
        assert x in c[r] ==> x.key in m && m[x.key] == x.value && Entry(x.key, m[x.key]) in b[r];
      }
      SortedUnique(b[r], c[r]);
    }
  }

  // ---------- Enumeration ----------

  /** All entries, row after row. */
  function Flatten(b: Rows): seq<Entry> {
    if b == [] then [] else Flatten(b[..|b| - 1]) + b[|b| - 1]
  }

  function TotalLength(b: Rows): nat {
    if b == [] then 0 else TotalLength(b[..|b| - 1]) + |b[|b| - 1]|
  }

  lemma {:induction false} FlattenLength(b: Rows)
    ensures |Flatten(b)| == TotalLength(b)
  {
    if b != [] {
      FlattenLength(b[..|b| - 1]);
    }
  }

  lemma {:induction false} FlattenMembers(b: Rows, n: nat, x: Entry)
    requires n <= |b|
    ensures x in Flatten(b[..n]) <==> exists r :: 0 <= r < n && x in b[r]
  {
    if n > 0 {
      assert b[..n][..n - 1] == b[..n - 1];
      FlattenMembers(b, n - 1, x);
    }
  }

  lemma {:induction false} FlattenDistinct(b: Rows, m: map<Key, Value>, n: nat)
    requires Represents(b, m) && n <= |b|
    ensures DistinctKeys(Flatten(b[..n]))
  {
    if n > 0 {
      assert b[..n][..n - 1] == b[..n - 1];
      FlattenDistinct(b, m, n - 1);
      var p, q := Flatten(b[..n - 1]), b[n - 1];
      SortedIsDistinct(q);
      forall i, j | 0 <= i < |p| && 0 <= j < |q| ensures p[i].key != q[j].key {
        FlattenMembers(b, n - 1, p[i]);
        assert q[j] in b[n - 1];
      }
    }
  }

  /** The enumeration lists every entry of the map exactly once. */
  lemma FlattenIsTheMap(b: Rows, m: map<Key, Value>)
    requires Represents(b, m)
    ensures DistinctKeys(Flatten(b))
    ensures ToMap(Flatten(b)) == m
    ensures |m| == |Flatten(b)| == TotalLength(b)
  {
    assert b[..|b|] == b;
    FlattenDistinct(b, m, |b|);
    forall x: Entry ensures x in Flatten(b) <==> x.key in m && m[x.key] == x.value {
      FlattenMembers(b, |b|, x);
      if x.key in m && m[x.key] == x.value {
        assert Entry(x.key, m[x.key]) in b[HashCode(x.key, |b|)];
      }
    }
    SameEntriesSameMap(Flatten(b), m);
    ToMapExact(Flatten(b));
    FlattenLength(b);
  }

  /** Where a row's entries stand in the enumeration. */
  lemma {:induction false} FlattenRow(b: Rows, r: nat)
    requires r < |b|
    ensures |Flatten(b[..r + 1])| == |Flatten(b[..r])| + |b[r]| <= |Flatten(b)|
    ensures var start := |Flatten(b[..r])|;
            forall k {:trigger Flatten(b)[k]} :: start <= k < start + |b[r]| ==> Flatten(b)[k] == b[r][k - start]
  {
    assert b[..r + 1][..r] == b[..r];
    if r + 1 == |b| {
      assert b[..r + 1] == b;
    } else {
      var p := b[..|b| - 1];
      FlattenRow(p, r);
      assert p[..r] == b[..r] && p[..r + 1] == b[..r + 1] && p[r] == b[r];
    }
  }

  /** The enumeration is in the order of the rows, and of the keys within a row. */
  lemma {:induction false} EnumerationOrder(b: Rows, m: map<Key, Value>, n: nat, i: nat, j: nat)
    requires Represents(b, m) && n <= |b| && i < j < |Flatten(b[..n])|
    ensures var x, y := Flatten(b[..n])[i].key, Flatten(b[..n])[j].key;
            HashCode(x, |b|) < HashCode(y, |b|) || (HashCode(x, |b|) == HashCode(y, |b|) && Less(x, y))
  {
    hide HashCode, Less;
    assert n > 0;
    assert b[..n][..n - 1] == b[..n - 1];
    var p, q := Flatten(b[..n - 1]), b[n - 1];
    var s := Flatten(b[..n]);
    assert s == p + q;
    if j < |p| {
      EnumerationOrder(b, m, n - 1, i, j);
    } else {
      assert s[j] == q[j - |p|] && s[j] in b[n - 1];
      if i < |p| {
        FlattenMembers(b, n - 1, s[i]);
      } else {
        assert s[i] == q[i - |p|] && s[i] in b[n - 1];
        assert Ordered(b[n - 1]);
      }
    }
  }

  /** A table of three rows lists the keys "a", "b" and "c" as "c", "a", "b". */
  lemma ThreeKeysInThreeRows(b: Rows, v: Value)
    requires |b| == 3 && ValueOk(v) && Represents(b, map[[97] := v, [98] := v, [99] := v])
    ensures Keys(Flatten(b)) == [[99], [97], [98]]
  {
    hide Flatten, Represents;
    ThreeRowsRepresent(v);
    LayoutIsCanonical(b, [[Entry([99], v)], [Entry([97], v)], [Entry([98], v)]], map[[97] := v, [98] := v, [99] := v]);
    ThreeRows(b, Entry([99], v), Entry([97], v), Entry([98], v));
  }

  lemma ThreeRowsRepresent(v: Value)
    requires ValueOk(v)
    ensures Represents([[Entry([99], v)], [Entry([97], v)], [Entry([98], v)]],
                       map[[97] := v, [98] := v, [99] := v])
  {
    HashOfOne(97, 3);
    HashOfOne(98, 3);
    HashOfOne(99, 3);
    hide HashCode, Less;
  }

  lemma ThreeRows(b: Rows, x: Entry, y: Entry, z: Entry)
    requires b == [[x], [y], [z]]
    ensures Flatten(b) == [x, y, z]
  {
    assert b[..2][..1] == b[..1] && b[..1][..0] == [];
    assert Flatten(b[..1]) == [x] && Flatten(b[..2]) == [x, y];
  }

  // ---------- State transfer ----------

  lemma {:induction false} PutAllOverrides(m: map<Key, Value>, s: seq<Entry>)
    ensures PutAll(m, s) == m + ToMap(s)
  {
    if s != [] {
      PutAllOverrides(m, s[..|s| - 1]);
    }
  }

  lemma OverrideExactly(target: map<Key, Value>, source: map<Key, Value>)
    ensures target + source == source <==> target.Keys <= source.Keys
  {
    var sum := target + source;
    assert sum.Keys == target.Keys + source.Keys;
    if target.Keys <= source.Keys {
      assert sum.Keys == source.Keys;
    }
  }

  /** Putting all entries of one table into another overrides the second map with the first, whatever
      the numbers of rows; the result is the source exactly when the target had no key of its own. */
  lemma TransferIsExact(b: Rows, source: map<Key, Value>, target: map<Key, Value>)
    requires Represents(b, source)
    ensures PutAll(target, Flatten(b)) == target + source
    ensures PutAll(target, Flatten(b)) == source <==> target.Keys <= source.Keys
  {
    FlattenIsTheMap(b, source);
    PutAllOverrides(target, Flatten(b));
    OverrideExactly(target, source);
  }
}
