/** The chained hash table: an array of sorted lists and a redundant entry count. */
module Tables {
  import opened CString
  import opened EntrySeq
  import opened Buckets
  import opened Lists

  /** Pairwise disjoint parts of a set of objects. */
  ghost predicate Separate(parts: seq<set<object>>, whole: set<object>) {
    && (forall r :: 0 <= r < |parts| ==> parts[r] <= whole)
    && (forall r, q {:trigger parts[r], parts[q]} :: 0 <= r < q < |parts| ==> parts[r] !! parts[q])
  }

  /** A part may grow by objects that are new to the whole. */
  lemma PartGrows(parts: seq<set<object>>, whole: set<object>, row: nat, part: set<object>)
    requires Separate(parts, whole) && row < |parts|
    requires part * whole <= parts[row]
    ensures Separate(parts[row := part], whole + part)
  {
  }

  lemma PartAdded(parts: seq<set<object>>, whole: set<object>, part: set<object>)
    requires Separate(parts, whole) && part !! whole
    ensures Separate(parts + [part], whole + part)
  {
  }

  class Table {
    var size: int
    const rows: int
    const lists: array<List?>

    ghost var M: map<Key, Value>
    ghost var buckets: Rows
    ghost var parts: seq<set<object>>
    ghost var Repr: set<object>

    /** The rows are valid lists with separate nodes. */
    ghost predicate RowsValid()
      reads `buckets, `parts, `Repr, Repr - {this}
    {
      && {this, lists} <= Repr
      && 0 < rows == lists.Length == |buckets| == |parts|
      && Separate(parts, Repr - {this, lists})
      && forall r :: 0 <= r < rows ==>
          && lists[r] != null && lists[r] in parts[r]
          && lists[r].Repr == parts[r] && lists[r].Valid() && lists[r].contents == buckets[r]
    }

    /** The table stands for the map `M`, and `size` is its number of keys. */
    ghost predicate Valid()
      reads this, Repr
      ensures Valid() ==> this in Repr
    {
      RowsValid() && Represents(buckets, M) && size == |M|
    }

    /** `table_create` for a positive number of rows */
    constructor (n: int)
      requires n > 0
      ensures Valid() && fresh(Repr)
      ensures M == map[] && rows == n
    {
      size, rows := 0, n;
      lists := new List?[n](_ => null);
      M := map[];
      buckets := seq(n, _ => []);
      parts := [];
      new;
      Repr := {this, lists};
      for i := 0 to n
        invariant fresh(Repr) && {this, lists} <= Repr
        invariant M == map[] && size == 0 && buckets == seq(n, _ => []) && |parts| == i
        invariant Separate(parts, Repr - {this, lists})
        invariant forall r :: 0 <= r < i ==>
                                && lists[r] != null && lists[r] in parts[r]
                                && lists[r].Repr == parts[r] && lists[r].Valid() && lists[r].contents == []
      {
        var list := new List();
        lists[i] := list;
        ghost var whole := Repr - {this, lists};
        PartAdded(parts, whole, list.Repr);
        parts := parts + [list.Repr];
        Repr := Repr + list.Repr;
        assert Repr - {this, lists} == whole + list.Repr;
      }
      EmptyRepresents(buckets);
    }

    /** `table_put` */
    method Put(key: Key, value: Value) returns (result: int)
      requires Valid()
      requires value != [] ==> Hashable(key, rows)
      modifies Repr
      ensures Valid() && fresh(Repr - old(Repr))
      ensures value == [] ==> result == -1 && M == old(M)
      ensures value != [] ==> result == 0 && M == old(M)[key := value]
    {
      hide Represents, HasKey, Insert, Delete, Ordered;
      if !ValueOk(value) {
        return -1;
      }
      var newEntry := Entry(key, value);
      HashInRangeExactly(key, rows);
      var row := ComputeHashCode(key, rows);
      ghost var after := AfterPut(buckets, M, newEntry);
      result := AddToRow(row, newEntry, after);
    }

    /** The part of `table_put` that follows the choice of the row. */
    method AddToRow(row: int, entry: Entry, ghost after: map<Key, Value>) returns (result: int)
      requires RowsValid() && this in Repr && ValueOk(entry.value)
      requires 0 <= row < rows
      requires Represents(buckets[row := Insert(buckets[row], entry)], after)
      requires |after| == if HasKey(buckets[row], entry.key) then size else size + 1
      modifies Repr
      ensures Valid() && fresh(Repr - old(Repr))
      ensures result == 0 && M == after
    {
      hide Represents, HasKey, Insert, Delete, Ordered;
      var list := lists[row];
      result := list.Add(entry);
      if result == 0 {
        size := size + 1;
      }
      RowUpdated(row, list, after);
      result := 0;
    }

    /** The part of `table_remove` that follows the choice of the row. */
    method RemoveFromRow(row: int, key: Key, ghost after: map<Key, Value>) returns (result: int)
      requires RowsValid() && this in Repr
      requires 0 <= row < rows
      requires Represents(buckets[row := Delete(buckets[row], key)], after)
      requires |after| == if HasKey(buckets[row], key) then size - 1 else size
      modifies Repr
      ensures Valid() && Repr == old(Repr)
      ensures result == (if HasKey(old(buckets[row]), key) then 0 else 1) && M == after
    {
      hide Represents, HasKey, Insert, Delete, Ordered;
      var list := lists[row];
      result := list.Remove(key);
      if result == 0 {
        size := size - 1;
      }
      RowUpdated(row, list, after);
    }

    /** Take note of what an operation on the list of one row has changed. */
    ghost method RowUpdated(row: nat, list: List, after: map<Key, Value>)
      requires 0 <= row < rows == lists.Length == |buckets| == |parts|
      requires {this, lists} <= Repr && Separate(parts, Repr - {this, lists})
      requires lists[row] == list && list.Valid() && list in list.Repr
      requires list.Repr * Repr <= parts[row]
      requires forall r :: 0 <= r < rows && r != row ==>
                 && lists[r] != null && lists[r] in parts[r]
                 && lists[r].Repr == parts[r] && lists[r].Valid() && lists[r].contents == buckets[r]
      requires Represents(buckets[row := list.contents], after)
      modifies this
      ensures RowsValid() && Repr == old(Repr) + list.Repr
      ensures Represents(buckets, M) && M == after && size == old(size)
    {
      PartGrows(parts, Repr - {this, lists}, row, list.Repr);
      assert Repr + list.Repr - {this, lists} == Repr - {this, lists} + list.Repr;
      parts := parts[row := list.Repr];
      buckets := buckets[row := list.contents];
      Repr := Repr + list.Repr;
      M := after;
    }

    /** `table_get` */
    method Get(key: Key) returns (value: Option<Value>)
      requires Valid()
      requires M != map[] ==> Hashable(key, rows)
      ensures value == if key in M then Some(M[key]) else None
    {
      var entry := GetEntry(key);
      if entry == None {
        return None;
      }
      return Some(entry.value.value);
    }

    /** `table_get_entry` */
    method GetEntry(key: Key) returns (entry: Option<Entry>)
      requires Valid()
      requires M != map[] ==> Hashable(key, rows)
      ensures entry == if key in M then Some(Entry(key, M[key])) else None
    {
      if size == 0 {
        return None;
      }
      HashInRangeExactly(key, rows);
      var row := ComputeHashCode(key, rows);
      RowDecides(buckets, M, key);
      entry := lists[row].Get(key);
    }

    /** `table_remove` */
    method Remove(key: Key) returns (result: int)
      requires Valid()
      requires M != map[] ==> Hashable(key, rows)
      modifies Repr
      ensures Valid() && Repr == old(Repr)
      ensures M == old(M) - {key}
      ensures result == if key in old(M) then 0 else 1
    {
      hide Represents, HasKey, Insert, Delete, Ordered;
      if size == 0 {
        return 1;
      }
      HashInRangeExactly(key, rows);
      var row := ComputeHashCode(key, rows);
      ghost var after := AfterRemove(buckets, M, key);
      result := RemoveFromRow(row, key, after);
    }

    /** `table_size` */
    method Size() returns (result: int)
      requires Valid()
      ensures result == |M|
    {
      return size;
    }

    /** `table_get_keys`: null for an empty table, else every key once, row after row, and a null at the end. */
    method GetKeys() returns (keys: array?<Option<Key>>)
      requires Valid()
      ensures keys == null <==> M == map[]
      ensures keys != null ==> fresh(keys) && IsKeyArray(keys[..], Keys(Flatten(buckets)))
    {
      hide Represents, Flatten, ToMap, DistinctKeys, TotalLength, Separate;
      FlattenIsTheMap(buckets, M);
      if size == 0 {
        return null;
      }
      keys := new Option<Key>[size + 1](_ => None);
      var keyIndex := 0;
      ghost var all := Flatten(buckets);
      StartOfRows(buckets);
      hide List.Valid;
      for row := 0 to rows
        invariant keyIndex == |Flatten(buckets[..row])| <= |all|
        invariant forall j :: 0 <= j < keyIndex ==> keys[j] == Some(all[j].key)
        invariant forall j :: keyIndex <= j < keys.Length ==> keys[j] == None
      {
        var listKeys := lists[row].GetKeys();
        FlattenRow(buckets, row);
        if listKeys != null {
          keyIndex := CopyKeys(listKeys, keys, keyIndex, Keys(buckets[row]));
        }
      }
      assert buckets[..rows] == buckets;
    }

    /** `get_all_entries`: none for an empty table, else every entry once, in the order of the keys. */
    method GetAllEntries() returns (entries: Option<seq<Entry>>)
      requires Valid()
      ensures entries == if M == map[] then None else Some(Flatten(buckets))
    {
      hide Represents, Flatten, ToMap;
      var keys := GetKeys();
      if keys == null {
        return None;
      }
      ghost var all := Flatten(buckets);
      FlattenIsTheMap(buckets, M);
      ghost var listed := keys[..];
      KeyArrayAt(listed, all);
      var found: seq<Entry> := [];
      var i := 0;
      while keys[i] != None
        invariant 0 <= i <= |all| && found == all[..i]
        invariant keys[..] == listed && keys[i] == listed[i]
        decreases |all| - i
      {
        EnumeratedEntry(buckets, M, i);
        var entry := GetEntry(keys[i].value);
        if entry == None {
          return None;
        }
        found := found + [entry.value];
        i := i + 1;
        assert keys[..][i] == listed[i];
      }
      assert i == |all| && all[..i] == all;
      return Some(found);
    }
  }

  /** The inner loop of `table_get_keys`: append the keys of one row. */
  method CopyKeys(listKeys: array<Option<Key>>, keys: array<Option<Key>>, start: int, ghost row: seq<Key>)
    returns (keyIndex: int)
    requires IsKeyArray(listKeys[..], row) && listKeys != keys
    requires 0 <= start && start + |row| < keys.Length
    modifies keys
    ensures keyIndex == start + |row|
    ensures forall j :: 0 <= j < keys.Length ==>
      keys[j] == if start <= j < keyIndex then Some(row[j - start]) else old(keys[j])
  {
    keyIndex := start;
    var listIndex := 0;
    var key := listKeys[listIndex];
    while key != None
      invariant 0 <= listIndex <= |row| && key == listKeys[listIndex] && listKeys[..] == old(listKeys[..])
      invariant keyIndex == start + listIndex
      invariant forall j :: 0 <= j < keys.Length ==>
        keys[j] == if start <= j < keyIndex then Some(row[j - start]) else old(keys[j])
      decreases |row| - listIndex
    {
      assert listKeys[..][listIndex] == key;
      keys[keyIndex] := key;
      keyIndex := keyIndex + 1;
      listIndex := listIndex + 1;
      key := listKeys[listIndex];
    }
    assert listKeys[..][listIndex] == key;
  }

  lemma KeyArrayAt(a: seq<Option<Key>>, s: seq<Entry>)
    requires IsKeyArray(a, Keys(s))
    ensures |a| == |s| + 1 && a[|s|] == None
    ensures forall i :: 0 <= i < |s| ==> a[i] == Some(s[i].key)
  {
  }

  lemma StartOfRows(b: Rows)
    ensures |Flatten(b[..0])| == 0
  {
  }

  /** An enumerated entry is in the map, and its key is a usable one. */
  lemma EnumeratedEntry(b: Rows, m: map<Key, Value>, i: nat)
    requires Represents(b, m) && i < |Flatten(b)|
    ensures var e := Flatten(b)[i]; Hashable(e.key, |b|) && e.key in m && m[e.key] == e.value && ValueOk(e.value)
  {
    var e := Flatten(b)[i];
    assert b[..|b|] == b;
    FlattenMembers(b, |b|, e);
    HashInRangeExactly(e.key, |b|);
    var r :| 0 <= r < |b| && e in b[r];
    var j :| 0 <= j < |b[r]| && b[r][j] == e;
    assert Ordered(b[r]);
  }

  /** `table_create` */
  method CreateTable(n: int) returns (table: Table?)
    ensures table == null <==> n <= 0
    ensures table != null ==> fresh(table.Repr) && table.Valid() && table.rows == n && table.M == map[]
  {
    if n <= 0 {
      return null;
    }
    table := new Table(n);
  }
}
