/** Key-sorted sequences of entries: what a list of the storage engine represents. */
module EntrySeq {
  import opened CString

  type Value = seq<Byte>

  datatype Entry = Entry(key: Key, value: Value)

  /** `data_valid`: a value block holds at least one byte. */
  predicate ValueOk(v: Value) {
    |v| > 0
  }

  ghost predicate Sorted(s: seq<Entry>) {
    forall i, j {:trigger Less(s[i].key, s[j].key)} :: 0 <= i < j < |s| ==> Less(s[i].key, s[j].key)
  }

  ghost predicate ValuesOk(s: seq<Entry>) {
    forall i :: 0 <= i < |s| ==> ValueOk(s[i].value)
  }

  ghost predicate Ordered(s: seq<Entry>) {
    Sorted(s) && ValuesOk(s)
  }

  ghost predicate HasKey(s: seq<Entry>, k: Key) {
    exists i :: 0 <= i < |s| && s[i].key == k
  }

  function Keys(s: seq<Entry>): (r: seq<Key>) {
    seq(|s|, i requires 0 <= i < |s| => s[i].key)
  }

  /** Putting entries one by one into a map; a later entry wins. */
  function PutAll(m: map<Key, Value>, s: seq<Entry>): map<Key, Value> {
    if s == [] then m else PutAll(m, s[..|s| - 1])[s[|s| - 1].key := s[|s| - 1].value]
  }

  /** The map a sequence of entries stands for. */
  function ToMap(s: seq<Entry>): map<Key, Value> {
    PutAll(map[], s)
  }

  /** One sorted insertion that replaces an entry with the same key. */
  function Insert(s: seq<Entry>, e: Entry): seq<Entry> {
    if s == [] then [e]
    else if StrCmp(e.key, s[0].key) < 0 then [e] + s
    else if StrCmp(e.key, s[0].key) == 0 then [e] + s[1..]
    else [s[0]] + Insert(s[1..], e)
  }

  function Delete(s: seq<Entry>, k: Key): seq<Entry> {
    if s == [] then []
    else if s[0].key == k then s[1..]
    else [s[0]] + Delete(s[1..], k)
  }

  // ---------- Insert and Delete by position ----------

  /** Insertion passes over a prefix of smaller keys. */
  lemma {:induction false} InsertAfterPrefix(s: seq<Entry>, e: Entry, n: nat)
    requires n <= |s|
    requires forall i :: 0 <= i < n ==> Less(s[i].key, e.key)
    ensures Insert(s, e) == s[..n] + Insert(s[n..], e)
  {
    if n == 0 {
      assert s[n..] == s && s[..n] == [];
    } else {
      StrCmpSign(e.key, s[0].key);
      InsertAfterPrefix(s[1..], e, n - 1);
      assert s[1..][n - 1..] == s[n..] && s[..n] == [s[0]] + s[1..][..n - 1];
    }
  }

  /** Deletion passes over a prefix that lacks the key. */
  lemma {:induction false} DeleteAfterPrefix(s: seq<Entry>, k: Key, n: nat)
    requires n <= |s|
    requires forall i :: 0 <= i < n ==> s[i].key != k
    ensures Delete(s, k) == s[..n] + Delete(s[n..], k)
  {
    if n == 0 {
      assert s[n..] == s && s[..n] == [];
    } else {
      DeleteAfterPrefix(s[1..], k, n - 1);
      assert s[1..][n - 1..] == s[n..] && s[..n] == [s[0]] + s[1..][..n - 1];
    }
  }

  /** Insertion is one of two edits: replace the entry at its key's position, or open a gap there. */
  lemma {:induction false} InsertPosition(s: seq<Entry>, e: Entry) returns (n: nat)
    requires Sorted(s)
    ensures n <= |s|
    ensures forall i :: 0 <= i < n ==> Less(s[i].key, e.key)
    ensures n < |s| ==> !Less(s[n].key, e.key)
    ensures HasKey(s, e.key) ==> n < |s| && s[n].key == e.key && Insert(s, e) == s[n := e]
    ensures !HasKey(s, e.key) ==> Insert(s, e) == s[..n] + [e] + s[n..]
    ensures !HasKey(s, e.key) ==> forall i :: n <= i < |s| ==> Less(e.key, s[i].key)
    ensures HasKey(s, e.key) ==> forall i :: n < i < |s| ==> Less(e.key, s[i].key)
  {
    n := 0;
    while n < |s| && Less(s[n].key, e.key)
      invariant n <= |s|
      invariant forall i :: 0 <= i < n ==> Less(s[i].key, e.key)
    {
      n := n + 1;
    }
    InsertAfterPrefix(s, e, n);
    if n < |s| {
      StrCmpSign(e.key, s[n].key);
      forall i | n < i < |s| && Less(e.key, s[n].key) ensures Less(e.key, s[i].key) {
        LessTransitive(e.key, s[n].key, s[i].key);
      }
    }
    forall i | 0 <= i < |s| && s[i].key == e.key ensures i == n {
      StrCmpSign(s[i].key, e.key);
    }
    if n < |s| && s[n].key == e.key {
      assert s[n..][1..] == s[n + 1..];
      assert s[n := e] == s[..n] + ([e] + s[n + 1..]);
    }
  }

  /** The result stays strictly sorted, valid, and one longer exactly for a new key. */
  lemma InsertSorted(s: seq<Entry>, e: Entry)
    requires Sorted(s)
    ensures Sorted(Insert(s, e))
    ensures |Insert(s, e)| == if HasKey(s, e.key) then |s| else |s| + 1
    ensures ValuesOk(s) && ValueOk(e.value) ==> ValuesOk(Insert(s, e))
  {
    var n := InsertPosition(s, e);
    var r := Insert(s, e);
    if HasKey(s, e.key) {
      assert r == s[n := e];
      assert Sorted(r);
    } else {
      assert r == s[..n] + [e] + s[n..];
      assert Sorted(r);
    }
  }

  /** Membership after an insertion: the new entry, and every old entry with another key. */
  lemma InsertMembers(s: seq<Entry>, e: Entry, x: Entry)
    requires Sorted(s)
    ensures x in Insert(s, e) <==> x == e || (x in s && x.key != e.key)
  {
    hide Insert, Less;
    var n := InsertPosition(s, e);
    var r := Insert(s, e);
    if HasKey(s, e.key) {
      assert r == s[..n] + [e] + s[n + 1..];
      assert s == s[..n] + [s[n]] + s[n + 1..];
      KeyUnique(s, n);
    } else {
      assert s == s[..n] + s[n..];
    }
  }

  lemma KeyUnique(s: seq<Entry>, n: nat)
    requires Sorted(s) && n < |s|
    ensures forall i :: 0 <= i < |s| && s[i].key == s[n].key ==> i == n
  {
    StrCmpSign(s[n].key, s[n].key);
    assert forall i :: 0 <= i < n ==> Less(s[i].key, s[n].key);
    assert forall i :: n < i < |s| ==> Less(s[n].key, s[i].key);
  }

  lemma DeletePosition(s: seq<Entry>, k: Key) returns (n: nat)
    requires Sorted(s)
    ensures n <= |s|
    ensures HasKey(s, k) ==> n < |s| && s[n].key == k && Delete(s, k) == s[..n] + s[n + 1..]
    ensures !HasKey(s, k) ==> Delete(s, k) == s
  {
    n := 0;
    while n < |s| && s[n].key != k
      invariant n <= |s|
      invariant forall i :: 0 <= i < n ==> s[i].key != k
    {
      n := n + 1;
    }
    DeleteAfterPrefix(s, k, n);
    if n < |s| {
      assert s[n..][1..] == s[n + 1..];
    } else {
      assert s[..n] == s && s[n..] == [];
    }
  }

  lemma DeleteSorted(s: seq<Entry>, k: Key)
    requires Sorted(s)
    ensures Sorted(Delete(s, k))
    ensures |Delete(s, k)| == if HasKey(s, k) then |s| - 1 else |s|
    ensures ValuesOk(s) ==> ValuesOk(Delete(s, k))
  {
    var n := DeletePosition(s, k);
  }

  lemma DeleteMembers(s: seq<Entry>, k: Key, x: Entry)
    requires Sorted(s)
    ensures x in Delete(s, k) <==> x in s && x.key != k
  {
    var n := DeletePosition(s, k);
    if HasKey(s, k) {
      assert s == s[..n] + [s[n]] + s[n + 1..];
      KeyUnique(s, n);
    }
  }

  // ---------- Sequences of entries as maps ----------

  ghost predicate DistinctKeys(s: seq<Entry>) {
    forall i, j :: 0 <= i < j < |s| ==> s[i].key != s[j].key
  }

  lemma SortedIsDistinct(s: seq<Entry>)
    requires Sorted(s)
    ensures DistinctKeys(s)
  {
    forall i, j | 0 <= i < j < |s| ensures s[i].key != s[j].key {
      assert Less(s[i].key, s[j].key);
      StrCmpSign(s[i].key, s[j].key);
    }
  }

  lemma {:induction false} ToMapKeys(s: seq<Entry>, k: Key)
    ensures k in ToMap(s) <==> HasKey(s, k)
  {
    if s != [] {
      var p, last := s[..|s| - 1], s[|s| - 1];
      ToMapKeys(p, k);
      assert s == p + [last];
      if HasKey(p, k) {
        var i :| 0 <= i < |p| && p[i].key == k;
        assert s[i].key == k;
      }
      if i :| 0 <= i < |s| && s[i].key == k && k != last.key {
        assert p[i].key == k;
      }
    }
  }

  /** With distinct keys the map holds every entry's value, and has one key per entry. */
  lemma {:induction false} ToMapExact(s: seq<Entry>)
    requires DistinctKeys(s)
    ensures forall i :: 0 <= i < |s| ==> s[i].key in ToMap(s) && ToMap(s)[s[i].key] == s[i].value
    ensures |ToMap(s)| == |s|
  {
    if s != [] {
      var p, last := s[..|s| - 1], s[|s| - 1];
      assert DistinctKeys(p) && !HasKey(p, last.key);
      ToMapExact(p);
      ToMapKeys(p, last.key);
      assert ToMap(s) == ToMap(p)[last.key := last.value];
      assert ToMap(s).Keys == ToMap(p).Keys + {last.key};
      forall i | 0 <= i < |s| ensures s[i].key in ToMap(s) && ToMap(s)[s[i].key] == s[i].value {
        if i < |p| {
          assert p[i] == s[i];
        }
      }
    }
  }

  /** `list_add` on the represented map: exactly one key is updated. */
  lemma InsertUpdatesOneKey(s: seq<Entry>, e: Entry)
    requires Sorted(s)
    ensures ToMap(Insert(s, e)) == ToMap(s)[e.key := e.value]
    ensures HasKey(s, e.key) <==> e.key in ToMap(s)
  {
    InsertSorted(s, e);
    var r := Insert(s, e);
    SortedIsDistinct(s);
    SortedIsDistinct(r);
    SameEntriesSameMap(r, ToMap(s)[e.key := e.value]) by {
      forall x: Entry ensures x in r <==> x == e || (x in s && x.key != e.key) {
        InsertMembers(s, e, x);
      }
      MapMembers(s);
    }
    ToMapKeys(s, e.key);
  }

  /** `list_remove` on the represented map: exactly one key is dropped. */
  lemma DeleteDropsOneKey(s: seq<Entry>, k: Key)
    requires Sorted(s)
    ensures ToMap(Delete(s, k)) == ToMap(s) - {k}
  {
    DeleteSorted(s, k);
    var r := Delete(s, k);
    SortedIsDistinct(s);
    SortedIsDistinct(r);
    SameEntriesSameMap(r, ToMap(s) - {k}) by {
      forall x: Entry ensures x in r <==> x in s && x.key != k {
        DeleteMembers(s, k, x);
      }
      MapMembers(s);
    }
  }

  /** Entry membership and map lookup agree when keys are distinct. */
  lemma MapMembers(s: seq<Entry>)
    requires DistinctKeys(s)
    ensures forall x: Entry :: x in s <==> x.key in ToMap(s) && ToMap(s)[x.key] == x.value
  {
    ToMapExact(s);
    forall x: Entry | x.key in ToMap(s) && ToMap(s)[x.key] == x.value ensures x in s {
      ToMapKeys(s, x.key);
      assert HasKey(s, x.key);
      var i :| 0 <= i < |s| && s[i].key == x.key;
      assert s[i] == x;
    }
  }

  lemma SameEntriesSameMap(r: seq<Entry>, m: map<Key, Value>)
    requires DistinctKeys(r)
    requires forall x: Entry :: x in r <==> x.key in m && m[x.key] == x.value
    ensures ToMap(r) == m
  {
    MapMembers(r);
    forall k | k in m ensures k in ToMap(r) && ToMap(r)[k] == m[k] {
      assert Entry(k, m[k]) in r;
    }
    forall k | k in ToMap(r) ensures k in m {
      assert Entry(k, ToMap(r)[k]) in r;
    }
  }

  // ---------- A sorted sequence is determined by its map ----------

  lemma {:induction false} SortedUnique(s: seq<Entry>, t: seq<Entry>)
    requires Sorted(s) && Sorted(t)
    requires forall x: Entry :: x in s <==> x in t
    ensures s == t
  {
    assert (s != [] ==> s[0] in s) && (t != [] ==> t[0] in t);
    if s != [] {
      assert s[0] in t;
      FirstIsLeast(s, t);
      FirstIsLeast(t, s);
      StrCmpSign(s[0].key, t[0].key);
      SortedIsDistinct(s);
      SortedIsDistinct(t);
      var j :| 0 <= j < |t| && t[j] == s[0];
      assert j == 0;
      forall x: Entry ensures x in s[1..] <==> x in t[1..] {
        TailMembers(s, x);
        TailMembers(t, x);
      }
      SortedUnique(s[1..], t[1..]);
      assert s == [s[0]] + s[1..] && t == [t[0]] + t[1..];
    }
  }

  lemma FirstIsLeast(s: seq<Entry>, t: seq<Entry>)
    requires Sorted(s) && s != [] && t != []
    requires t[0] in s
    ensures s[0].key == t[0].key || Less(s[0].key, t[0].key)
  {
  }

  lemma TailMembers(s: seq<Entry>, x: Entry)
    requires Sorted(s) && s != []
    ensures x in s[1..] <==> x in s && x != s[0]
  {
    SortedIsDistinct(s);
    assert s == [s[0]] + s[1..];
  }
}
